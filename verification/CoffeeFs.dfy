/**
 Reading and writing Coffee files through descriptors. Whatever happens to extents, logs and file objects, a
 descriptor sees its file as a byte string: a read returns a slice of it, a write replaces a range of it, and
 merging a log changes nothing.

 The files are the active extents that the walk over the headers visits (`CoffeeDisk.DiskOf`). That a reservation adds
 one of them and leaves the others alone is an assumption here, which the storage meets exactly if the reservation is
 not blind (`CoffeeDisk.ReserveExtent`); garbage collection always leaves the files as they are
 (`CoffeeDisk.CollectUnseen`).
 */
module CoffeeFs {
  import opened Bytes
  import opened Wrappers
  import opened PowersOfTwo
  import opened CoffeeLayout
  import opened CoffeeLog
  import opened CoffeeFiles
  import opened CoffeeSearch
  import opened CoffeeUpdates

  class Coffee {
    var disk: Disk
    var files: seq<File>
    var fds: seq<Fd>

    /** Where the allocator finds pages, request by request, and the number of requests so far. */
    const found: nat -> int
    var requests: nat

    /** A formatted flash: no files, nothing cached, nothing open. */
    constructor (found: nat -> int)
      ensures Valid(disk, files, fds) && disk == map[]
      ensures forall i :: 0 <= i < FD_SET_SIZE ==> fds[i].Free()
    {
      this.found, requests := found, 0;
      disk := map[];
      files := seq(MAX_OPEN_FILES, _ => File(0, 0, 0, 0, 0, false));
      fds := seq(FD_SET_SIZE, _ => Fd(0, None, false, false, false));
      new;
      forall s: nat | s < |files| ensures files[s].references == Refs(fds, s) {
        RefsZero(fds, s);
      }
      CoreMeans(disk, files, fds);
    }

    /** A slot without an open descriptor has no references, and a free slot has none. */
    lemma FreeSlots()
      requires Core(disk, files, fds)
      ensures forall i :: 0 <= i < |files| && files[i].maxPages == 0 ==> files[i].references == 0
    {
      CoreMeans(disk, files, fds);
      forall i: nat | i < |files| && files[i].maxPages == 0 ensures files[i].references == 0 {
        RefsZero(fds, i);
        forall k: nat | k < |fds| ensures !fds[k].Uses(i) {
          assert FdOk(disk, files, fds[k]);
        }
      }
    }

    /** `load_file`: a free slot, or else the last one without references. */
    method LoadFile(start: int) returns (slot: Option<nat>)
      requires Core(disk, files, fds) && start in disk
      requires forall i :: 0 <= i < |files| && files[i].maxPages > 0 ==> files[i].page != start
      modifies this`files
      ensures slot.None? ==> files == old(files) && SlotsTaken(files)
      ensures slot.Some? ==> slot.value < old(|files|) && old(files)[slot.value].references == 0
      ensures slot.Some? ==>
        files == old(files)[slot.value := File(UNKNOWN_OFFSET, start, disk[start].pages, -1, 0, disk[start].modified)]
      ensures Core(disk, files, fds) && Handles(disk, files, fds) == old(Handles(disk, files, fds))
    {
      CoreMeans(disk, files, fds);
      FreeSlots();
      var i, unreferenced, free := 0, -1, -1;
      while i < |files|
        invariant 0 <= i <= |files| && free == -1
        invariant -1 <= unreferenced < |files|
        invariant unreferenced >= 0 ==> files[unreferenced].references == 0
        invariant forall j :: 0 <= j < i ==> files[j].maxPages > 0
        invariant unreferenced < 0 ==> forall j :: 0 <= j < i ==> files[j].references > 0
      {
        if files[i].maxPages == 0 {
          free := i;
          break;
        } else if files[i].references == 0 {
          unreferenced := i;
        } else {
          assert RefsOk(files, fds) && files[i].references >= 0;
        }
        i := i + 1;
      }
      if free == -1 {
        if unreferenced == -1 {
          return None;
        }
        i := unreferenced;
      }
      var hdr := disk[start];
      var f := files[i].(page := start, end := UNKNOWN_OFFSET, maxPages := hdr.pages, modified := hdr.modified,
        recordCount := -1);
      assert ExtentOk(disk, hdr);
      LoadSlot(disk, files, fds, i, f);
      files := files[i := f];
      return Some(i);
    }

    /** The cached file of this name. */
    method FindCached(name: string) returns (slot: Option<nat>)
      requires Core(disk, files, fds)
      ensures slot.Some? ==> Holds(disk, files, slot.value, name)
      ensures slot.None? ==> forall i: nat :: !Holds(disk, files, i, name)
    {
      CoreMeans(disk, files, fds);
      var i := 0;
      while i < |files|
        invariant 0 <= i <= |files|
        invariant forall j: nat :: j < i ==> !Holds(disk, files, j, name)
      {
        if files[i].maxPages != 0 {
          assert SlotOk(disk, files[i]);
          var hdr := disk[files[i].page];
          if !hdr.log && hdr.name == name {
            return Some(i);
          }
        }
        i := i + 1;
      }
      return None;
    }

    /** The first file of this name in page order. */
    method ScanFlash(name: string) returns (start: int)
      requires Core(disk, files, fds)
      ensures start != INVALID_PAGE ==> start in disk && !disk[start].log && disk[start].name == name
      ensures if start == INVALID_PAGE then !Exists(disk, name) else FirstNamed(disk, name, start)
      ensures forall p :: p in disk && !disk[p].log && disk[p].name == name ==> INVALID_PAGE < start <= p
    {
      CoreMeans(disk, files, fds);
      start := 0;
      while start < PAGE_COUNT
        invariant 0 <= start <= PAGE_COUNT
        invariant forall p :: p in disk && p < start ==> disk[p].log || disk[p].name != name
      {
        if start in disk && !disk[start].log && disk[start].name == name {
          return;
        }
        start := start + 1;
      }
      return INVALID_PAGE;
    }

    /**
     `find_file`: a cached file of this name, else the first in page order. It is missing exactly if there is
     none or it is not cached and no slot can be freed for it.
     */
    method FindFile(name: string) returns (slot: Option<nat>)
      requires Valid(disk, files, fds)
      modifies this`files
      ensures Valid(disk, files, fds) && Handles(disk, files, fds) == old(Handles(disk, files, fds))
      ensures forall i: nat :: Holds(disk, old(files), i, name) ==> slot == Some(i) && files == old(files)
      ensures slot.Some? ==> Holds(disk, files, slot.value, name)
      ensures slot.Some? && files != old(files) ==> LoadedInto(disk, old(files), slot.value, name, files)
      ensures slot.Some? && (forall i: nat :: !Holds(disk, old(files), i, name)) ==>
        LoadedInto(disk, old(files), slot.value, name, files)
      ensures slot.None? ==> files == old(files)
      ensures slot.Some? <==> Findable(disk, old(files), name)
    {
      CoreMeans(disk, files, fds);
      slot := FindCached(name);
      if slot.None? {
        var page := ScanFlash(name);
        if page != INVALID_PAGE {
          assert forall j :: 0 <= j < |files| && files[j].maxPages > 0 && files[j].page == page ==>
            Holds(disk, files, j, name);
          slot := LoadFile(page);
          if slot.Some? {
            LoadedIsNew(disk, old(files), slot.value, name, page);
          }
        }
      }
    }

    /** The header of a new extent is written; the pages behind it are erased. */
    method AddExtent(page: int, name: string, pages: nat, isLog: bool)
      requires Core(disk, files, fds) && 1 <= pages <= PAGE_COUNT && Room(pages) >= 0
      requires 0 <= page < PAGE_COUNT && page !in disk
      modifies this`disk
      ensures Core(disk, files, fds) && Handles(disk, files, fds) == old(Handles(disk, files, fds))
      ensures OneMore(old(disk), disk, page, name, pages, isLog)
      ensures forall q :: q in old(disk) ==> Content(disk, disk[q]) == Content(old(disk), disk[q])
      ensures forall i :: 0 <= i < |files| ==> SlotName(disk, files[i]) == SlotName(old(disk), files[i])
    {
      var e := FreshExtent(name, pages, isLog);
      DefaultRegionsFit(e);
      NewExtent(disk, files, fds, page, e);
      disk := disk[page := e];
    }

    /**
     `reserve`, if it is not blind: the walk over the headers visits the pages that the allocator finds, and
     `CoffeeDisk.ReserveExtent` says exactly when that is so. It succeeds exactly if there are pages and a slot. The
     header is written before a slot is looked for, so an extent can be left on the flash that no slot knows.
     */
    method Reserve(name: string, pages: nat, isLog: bool) returns (slot: Option<nat>)
      requires Core(disk, files, fds) && pages >= 1 && Room(pages) >= 0
      modifies this`disk, this`files, this`requests
      ensures Core(disk, files, fds) && Handles(disk, files, fds) == old(Handles(disk, files, fds))
      ensures forall q :: q in old(disk) ==>
        q in disk && disk[q] == old(disk)[q] && Content(disk, disk[q]) == Content(old(disk), disk[q])
      ensures requests == old(requests) + 1
      ensures if Refused(old(disk), pages, found(old(requests))) then disk == old(disk)
              else OneMore(old(disk), disk, found(old(requests)), name, pages, isLog)
      ensures slot.Some? <==> !Refused(old(disk), pages, found(old(requests))) && !SlotsTaken(old(files))
      ensures slot.None? ==> files == old(files)
      ensures slot.Some? ==> slot.value < old(|files|) && old(files)[slot.value].references == 0 && slot.value < |files|
      ensures slot.Some? ==> OneMore(old(disk), disk, files[slot.value].page, name, pages, isLog)
      ensures slot.Some? ==> files == old(files)[slot.value := File(0, files[slot.value].page, pages, -1, 0, false)]
      ensures forall i :: 0 <= i < |files| && slot != Some(i) ==>
        SlotName(disk, files[i]) == SlotName(old(disk), old(files)[i])
    {
      var page := found(requests);
      requests := requests + 1;
      if Refused(disk, pages, page) {
        return None;
      }
      AddExtent(page, name, pages, isLog);
      slot := LoadFile(page);
      if slot.Some? {
        SetEndOfFresh(disk, files, fds, slot.value);
        files := files[slot.value := files[slot.value].(end := 0)];
      }
    }

    /** `file_end`: the end of the last byte of the extent that is not zero. */
    method FileEnd(data: seq<Byte>) returns (end: nat)
      ensures EndsAt(data, end)
    {
      end := |data|;
      while end > 0 && data[end - 1] == 0
        invariant end <= |data| && forall k :: end <= k < |data| ==> data[k] == 0
      {
        end := end - 1;
      }
    }

    /** `get_available_fd` */
    method AvailableFd() returns (fd: int)
      requires |fds| == FD_SET_SIZE
      ensures -1 <= fd < |fds| && (fd >= 0 ==> fds[fd].Free())
      ensures fd < 0 ==> forall k :: 0 <= k < |fds| ==> !fds[k].Free()
    {
      fd := 0;
      while fd < |fds|
        invariant 0 <= fd <= |fds|
        invariant forall k :: 0 <= k < fd ==> !fds[k].Free()
      {
        if fds[fd].Free() {
          return;
        }
        fd := fd + 1;
      }
      return -1;
    }

    /** `cfs_open` on a file that has a slot: the descriptor refers to it from its start, or from its end. */
    method Attach(fd: nat, s: nat, read: bool, write: bool, append: bool)
      requires Valid(disk, files, fds) && fd < |fds| && fds[fd].Free() && (read || write || append)
      requires s < |files| && SlotName(disk, files[s]).Some? && files[s].end >= 0
      modifies this`files, this`fds
      ensures Valid(disk, files, fds)
      ensures files == old(files)[s := old(files)[s].(references := old(files)[s].references + 1)]
      ensures fds == old(fds)[fd := Fd(if append then files[s].end else 0, Some(s), read, write, append)]
      ensures Handles(disk, files, fds) == old(Handles(disk, files, fds))[fd := HandleOf(disk, files, fds[fd])]
    {
      var d := Fd(if append then files[s].end else 0, Some(s), read, write, append);
      SlotFine(disk, files, fds, s);
      OpenFd(disk, files, fds, fd, s, d);
      fds := fds[fd := d];
      files := files[s := files[s].(references := files[s].references + 1)];
    }

    /** A file of this name can be found, or may and can be created. */
    ghost predicate Openable(name: string, readOnly: bool)
      reads this
    {
      || Findable(disk, files, name)
      || (!readOnly && !SlotsTaken(files) && !Refused(disk, PageCount(DYN_SIZE), found(requests)))
    }

    /** The file that `cfs_open` opens: one of this name, or a new one if the caller may write. */
    method FindOrReserve(name: string, readOnly: bool) returns (slot: Option<nat>)
      requires Valid(disk, files, fds)
      modifies this`disk, this`files, this`requests
      ensures Valid(disk, files, fds) && Handles(disk, files, fds) == old(Handles(disk, files, fds))
      ensures slot.Some? <==> old(Openable(name, readOnly))
      ensures slot.Some? ==> Holds(disk, files, slot.value, name) && files[slot.value].end >= 0
      ensures slot.Some? && !Exists(old(disk), name) ==> files[slot.value].end == 0
      ensures slot.Some? && Exists(old(disk), name) ==>
        disk == old(disk) && Shows(disk, old(files), name, BytesOf(disk, files[slot.value]))
      ensures slot.Some? && old(NamesUnique(disk)) ==> NamesUnique(disk)
      ensures slot.None? ==> disk == old(disk) || LeftBehind(old(disk), disk, name)
      ensures readOnly && !Exists(old(disk), name) ==> slot.None? && disk == old(disk) && files == old(files)
      ensures forall s: nat ::
        Holds(old(disk), old(files), s, name) && old(files)[s].end >= 0 ==>
        slot == Some(s) && disk == old(disk) && files == old(files) && requests == old(requests)
    {
      CoreMeans(disk, files, fds);
      slot := FindFile(name);
      if slot.None? {
        if readOnly {
          return;
        }
        PageCountHolds(DYN_SIZE);
        FreeSlots();
        slot := Reserve(name, PageCount(DYN_SIZE), false);
        OneMoreName(old(disk), old(files), disk, files, slot, name);
        if slot.Some? && NamesUnique(old(disk)) {
          NewNameIff(old(disk), disk, files[slot.value].page, name, PageCount(DYN_SIZE), false);
        }
      } else {
        HeldExists(disk, files, slot.value, name);
        KnowEnd(slot.value, name, old(files));
      }
    }

    /** The end of a file that was found is looked for on the flash if its slot does not know it. */
    method KnowEnd(s: nat, name: string, ghost files0: seq<File>)
      requires Valid(disk, files, fds) && Valid(disk, files0, fds) && Holds(disk, files, s, name)
      requires if exists i: nat :: Holds(disk, files0, i, name) then files == files0
               else LoadedInto(disk, files0, s, name, files)
      modifies this`files
      ensures Valid(disk, files, fds) && Handles(disk, files, fds) == old(Handles(disk, files, fds))
      ensures s < |files| && files ==
        if old(files)[s].end >= 0 then old(files) else old(files)[s := old(files)[s].(end := files[s].end)]
      ensures Holds(disk, files, s, name) && files[s].end >= 0 && Shows(disk, files0, name, BytesOf(disk, files[s]))
    {
      CoreMeans(disk, files, fds);
      assert SlotOk(disk, files[s]);
      var end := files[s].end;
      if end == UNKNOWN_OFFSET {
        end := FileEnd(disk[files[s].page].data);
        EndOfUnopened(disk, files, fds, s, end);
        files := files[s := files[s].(end := end)];
      }
      FoundAt(disk, files0, s, name, old(files), end);
    }

    /** A descriptor is opened on the file of this name, which has a slot. */
    method AttachNamed(fd: nat, s: nat, name: string, read: bool, write: bool, append: bool)
      requires Valid(disk, files, fds) && fd < |fds| && fds[fd].Free() && (read || write || append)
      requires Holds(disk, files, s, name) && files[s].end >= 0
      modifies this`files, this`fds
      ensures Valid(disk, files, fds)
      ensures files == old(files)[s := old(files)[s].(references := old(files)[s].references + 1)]
      ensures fds == old(fds)[fd := Fd(if append then files[s].end else 0, Some(s), read, write, append)]
      ensures OpenedAs(old(Handles(disk, files, fds)), Handles(disk, files, fds), fd, name, read, write, append)
      ensures Handles(disk, files, fds)[fd].view == BytesOf(disk, old(files)[s])
    {
      SharedView(disk, files, fds, s, name);
      Attach(fd, s, read, write, append);
    }

    /** The file pointer of a descriptor that could not be opened is cleared. */
    method ForgetFile(fd: nat)
      requires Valid(disk, files, fds) && fd < |fds| && fds[fd].Free()
      modifies this`fds
      ensures Valid(disk, files, fds) && Handles(disk, files, fds) == old(Handles(disk, files, fds))
      ensures fds == old(fds)[fd := old(fds)[fd].(file := None)]
    {
      ClearFd(disk, files, fds, fd);
      fds := fds[fd := fds[fd].(file := None)];
    }

    /** `cfs_open` from the search for the file on, with a free descriptor. */
    method OpenAt(free: nat, name: string, read: bool, write: bool, append: bool) returns (fd: int)
      requires Valid(disk, files, fds) && (read || write || append) && free < |fds| && fds[free].Free()
      modifies this
      ensures Valid(disk, files, fds) && |fds| == old(|fds|) && (fd == free || fd == -1)
      ensures fd != -1 <==> old(Openable(name, read && !write))
      ensures fd == -1 ==> Handles(disk, files, fds) == old(Handles(disk, files, fds))
      ensures fd != -1 ==>
        OpenedAs(old(Handles(disk, files, fds)), Handles(disk, files, fds), fd, name, read, write, append)
      ensures fd != -1 && !Exists(old(disk), name) ==> Handles(disk, files, fds)[fd].view == []
      ensures fd != -1 && Exists(old(disk), name) ==>
        disk == old(disk) && Shows(disk, old(files), name, Handles(disk, files, fds)[fd].view)
      ensures old(NamesUnique(disk)) ==>
        (NamesUnique(disk) <==> fd != -1 || disk == old(disk) || !Exists(old(disk), name))
      ensures read && !write && !Exists(old(disk), name) ==> fd == -1 && disk == old(disk) && files == old(files)
      ensures forall s: nat :: Holds(old(disk), old(files), s, name) && old(files)[s].end >= 0 ==>
        fd != -1 && disk == old(disk) && requests == old(requests)
        && files == old(files)[s := old(files)[s].(references := old(files)[s].references + 1)]
        && fds == old(fds)[fd := Fd(if append then files[s].end else 0, Some(s), read, write, append)]
    {
      var slot := FindOrReserve(name, read && !write);
      if slot.None? {
        if disk != old(disk) && NamesUnique(old(disk)) {
          LeftBehindIff(old(disk), disk, name);
        }
        ForgetFile(free);
        return -1;
      }
      AttachNamed(free, slot.value, name, read, write, append);
      return free;
    }

    /**
     `cfs_open`. A new descriptor sees the bytes of the file of this name, up to their end, as the other descriptors
     do, and none if no file had this name; no other descriptor notices. It fails exactly if there is no descriptor or
     no file, and then nobody notices anything.
     */
    method CfsOpen(name: string, read: bool, write: bool, append: bool) returns (fd: int)
      requires Valid(disk, files, fds) && (read || write || append)
      modifies this
      ensures Valid(disk, files, fds)
      ensures fd != -1 <==> old(FdLeft(fds) && Openable(name, read && !write))
      ensures fd == -1 ==> Handles(disk, files, fds) == old(Handles(disk, files, fds))
      ensures fd != -1 ==> 0 <= fd < |fds| && fd < old(|fds|) && old(fds)[fd].Free()
      ensures fd != -1 ==>
        OpenedAs(old(Handles(disk, files, fds)), Handles(disk, files, fds), fd, name, read, write, append)
      ensures fd != -1 && !Exists(old(disk), name) ==> Handles(disk, files, fds)[fd].view == []
      ensures fd != -1 && Exists(old(disk), name) ==>
        disk == old(disk) && Shows(disk, old(files), name, Handles(disk, files, fds)[fd].view)
      ensures old(NamesUnique(disk)) ==>
        (NamesUnique(disk) <==> fd != -1 || disk == old(disk) || !Exists(old(disk), name))
      ensures read && !write && !Exists(old(disk), name) ==> fd == -1 && disk == old(disk) && files == old(files)
      ensures forall s: nat :: Holds(old(disk), old(files), s, name) && old(files)[s].end >= 0 ==>
        disk == old(disk) && requests == old(requests) && (if fd == -1 then files == old(files) && fds == old(fds) else
          && files == old(files)[s := old(files)[s].(references := old(files)[s].references + 1)]
          && fds == old(fds)[fd := Fd(if append then files[s].end else 0, Some(s), read, write, append)])
    {
      var free := AvailableFd();
      if free < 0 {
        return free;
      }
      fd := OpenAt(free, name, read, write, append);
    }

    ghost predicate FdValid(fd: int) reads this {
      0 <= fd < |fds| && !fds[fd].Free()
    }

    /** `cfs_close` */
    method CfsClose(fd: int)
      requires Core(disk, files, fds)
      modifies this`files, this`fds
      ensures !old(FdValid(fd)) ==> files == old(files) && fds == old(fds)
      ensures old(FdValid(fd)) ==>
        var d := old(fds)[fd];
        && d.file.Some? && d.file.value < |old(files)|
        && files == old(files)[d.file.value :=
             old(files)[d.file.value].(references := old(files)[d.file.value].references - 1)]
        && fds == old(fds)[fd := Close(d).(file := None)]
        && Handles(disk, files, fds) == old(Handles(disk, files, fds))[fd := Closed]
      ensures Core(disk, files, fds) && (NamesDistinct(disk, old(files)) ==> NamesDistinct(disk, files))
    {
      if 0 <= fd < |fds| && !fds[fd].Free() {
        FdFine(disk, files, fds, fd);
        var s := fds[fd].file.value;
        ChangeFd(disk, files, fds, files[s := files[s].(references := files[s].references - 1)], fd,
          Close(fds[fd]).(file := None));
        files := files[s := files[s].(references := files[s].references - 1)];
        fds := fds[fd := Close(fds[fd]).(file := None)];
      }
    }

    /**
     `read_log_page`: what a region of the file reads as, up to the end of the region, or nothing when no
     record is for it and the extent itself has the bytes.
     */
    method ReadLogPage(e: Extent, recordCount: int, offset: nat, size: nat)
      returns (found: Option<seq<Byte>>, trimmed: nat)
      requires e.modified && LogOk(disk, e)
      requires recordCount >= 0 ==> LogCount(disk[e.logPage].data, Records(e), recordCount)
      ensures trimmed == Trimmed(e, offset, size)
      ensures ReadsAs(disk, e, offset, trimmed, found)
    {
      var log := disk[e.logPage].data;
      var region := offset / Size(e);
      var inRegion := offset % Size(e);
      trimmed := if size > Size(e) - inRegion then Size(e) - inRegion else size;
      var searchRecords := if recordCount < 0 then Records(e) else recordCount;
      if recordCount >= 0 {
        NewestOfUsed(log, Records(e), recordCount, Records(e), region);
      }
      var matchIndex := GetRecordIndex(log, searchRecords, region);
      if matchIndex < 0 {
        found := None;
      } else {
        RecordInside(Records(e), Size(e), matchIndex, Records(e));
        var base := RecordStart(Records(e), Size(e), matchIndex) + inRegion;
        found := Some(log[base..base + trimmed]);
      }
      ReadsRegion(disk, e, offset, region, inRegion, trimmed, matchIndex, found);
    }

    /** Moving the offset of an open descriptor within its file. */
    lemma MoveOffset(fd: nat, offset: nat)
      requires Core(disk, files, fds) && FdValid(fd) && fds[fd].file.value < |files|
      requires offset <= files[fds[fd].file.value].end
      ensures Core(disk, files, fds[fd := fds[fd].(offset := offset)]) && Handles(disk, files, fds)[fd].Open?
      ensures Handles(disk, files, fds[fd := fds[fd].(offset := offset)]) ==
        Handles(disk, files, fds)[fd := Handles(disk, files, fds)[fd].(offset := offset)]
    {
      CoreMeans(disk, files, fds);
      assert FdOk(disk, files, fds[fd]);
      ChangeFd(disk, files, fds, files, fd, fds[fd].(offset := offset));
    }

    /** The rest of a region, or less, from the log in first hand. */
    method ReadRegion(hdr: Extent, recordCount: int, at: nat, size: nat) returns (bytes: seq<Byte>)
      requires hdr.modified && LogOk(disk, hdr) && at + size <= |hdr.data| && size > 0
      requires recordCount >= 0 ==> LogCount(disk[hdr.logPage].data, Records(hdr), recordCount)
      ensures 0 < |bytes| <= size && bytes == Content(disk, hdr)[at..at + |bytes|]
    {
      var found, r := ReadLogPage(hdr, recordCount, at, size);
      bytes := if found.Some? then found.value else hdr.data[at..at + r];
      ReadIsSlice(disk, hdr, at, r, found);
    }

    /** The loop of `cfs_read`: region by region. */
    method ReadThroughLog(hdr: Extent, recordCount: int, offset: nat, size: nat) returns (buf: seq<Byte>)
      requires hdr.modified && LogOk(disk, hdr) && offset + size <= |hdr.data|
      requires recordCount >= 0 ==> LogCount(disk[hdr.logPage].data, Records(hdr), recordCount)
      ensures buf == Content(disk, hdr)[offset..offset + size]
    {
      ghost var c := Content(disk, hdr);
      buf := [];
      var at, bytesLeft := offset, size;
      while bytesLeft > 0
        invariant 0 <= bytesLeft <= size && at == offset + size - bytesLeft
        invariant buf == c[offset..at]
      {
        var bytes := ReadRegion(hdr, recordCount, at, bytesLeft);
        SlicesJoin(c, offset, at, at + |bytes|);
        at := at + |bytes|;
        buf := buf + bytes;
        bytesLeft := bytesLeft - |bytes|;
      }
    }

    /** The bytes that `cfs_read` copies. */
    method ReadAt(fd: nat, size: nat) returns (n: nat, buf: seq<Byte>)
      requires Core(disk, files, fds) && fd < |fds| && !fds[fd].Free()
      ensures ReadOf(Handles(disk, files, fds)[fd], size, n, buf)
    {
      OpenFile(disk, files, fds, fd);
      var d := fds[fd];
      var file := files[d.file.value];
      n := if d.offset + size > file.end then file.end - d.offset else size;
      var hdr := disk[file.page];
      SliceOfPrefix(Content(disk, hdr), file.end, d.offset, d.offset + n);
      if !file.modified {
        buf := hdr.data[d.offset..d.offset + n];
      } else {
        buf := ReadThroughLog(hdr, file.recordCount, d.offset, n);
      }
    }

    /**
     `cfs_read`: the bytes of the file from the descriptor's offset, as many as asked for or as there are,
     whether they come from the extent or from its log.
     */
    method CfsRead(fd: int, size: nat) returns (n: int, buf: seq<Byte>)
      requires Core(disk, files, fds)
      modifies this`fds
      ensures !(old(FdValid(fd)) && old(fds)[fd].read) ==> n == -1 && buf == [] && fds == old(fds)
      ensures old(FdValid(fd)) && old(fds)[fd].read ==>
        var h := old(Handles(disk, files, fds))[fd];
        && ReadOf(h, size, n, buf)
        && fds == old(fds)[fd := old(fds)[fd].(offset := h.offset + n)]
        && Handles(disk, files, fds) == old(Handles(disk, files, fds))[fd := h.(offset := h.offset + n)]
      ensures Core(disk, files, fds)
    {
      if !(0 <= fd < |fds| && !fds[fd].Free() && fds[fd].read) {
        return -1, [];
      }
      n, buf := ReadAt(fd, size);
      OffsetInView(disk, files, fds, fd);
      MoveOffset(fd, fds[fd].offset + n);
      fds := fds[fd := fds[fd].(offset := fds[fd].offset + n)];
    }

    /** Descriptors of the file at `page` are closed. */
    method CloseByPage(page: int)
      requires PointersInside(fds, files)
      modifies this`fds
      ensures fds == CloseFdsAt(old(fds), files, page)
    {
      var i := 0;
      while i < |fds|
        invariant 0 <= i <= |fds| == old(|fds|)
        invariant forall k :: i <= k < |fds| ==> fds[k] == old(fds)[k]
        invariant forall k :: 0 <= k < i ==> fds[k] == CloseFdsAt(old(fds), files, page)[k]
      {
        if fds[i].file.Some? && files[fds[i].file.value].page == page {
          fds := fds[i := Close(fds[i])];
        }
        i := i + 1;
      }
    }

    /** Slots of the extent at `page` are free again. */
    method ResetByPage(page: int)
      modifies this`files
      ensures files == ResetSlots(old(files), {page})
    {
      var i := 0;
      while i < |files|
        invariant 0 <= i <= |files| == old(|files|)
        invariant forall k :: i <= k < |files| ==> files[k] == old(files)[k]
        invariant forall k ::
          0 <= k < i ==> files[k] == if old(files)[k].page == page then Reset(old(files)[k]) else old(files)[k]
      {
        if files[i].page == page {
          files := files[i := Reset(files[i])];
        }
        i := i + 1;
      }
    }

    /** `remove_by_page`: the extent becomes obsolete, and before it its log if that is asked for. */
    method RemoveByPage(page: int, removeLog: bool, closeFds: bool) returns (r: int)
      requires page != INVALID_PAGE && PointersInside(fds, files)
      requires removeLog && page in disk && disk[page].modified ==>
        disk[page].logPage != page && disk[page].logPage != INVALID_PAGE
      modifies this`disk, this`files, this`fds
      ensures r == if page in old(disk) &&
        (removeLog && old(disk)[page].modified ==> old(disk)[page].logPage in old(disk)) then 0 else -1
      ensures r == -1 ==> disk == old(disk) && files == old(files) && fds == old(fds)
      ensures r == 0 ==>
        var gone := if removeLog then WithLog(old(disk), page) else {page};
        && disk == Without(old(disk), gone) && files == ResetSlots(old(files), gone)
        && fds == if closeFds then CloseFdsAt(old(fds), old(files), page) else old(fds)
      decreases removeLog
    {
      if page !in disk {
        return -1;
      }
      var hdr := disk[page];
      if removeLog && hdr.modified {
        if hdr.logPage !in disk {
          return -1;
        }
        r := RemoveByPage(hdr.logPage, false, false);
      }
      disk := Without(disk, {page});
      if closeFds {
        CloseByPage(page);
      }
      ResetByPage(page);
      return 0;
    }

    /** `cfs_remove`: the file and its log become obsolete and all its descriptors are closed. */
    method CfsRemove(name: string) returns (r: int)
      requires Valid(disk, files, fds)
      modifies this`disk, this`files, this`fds
      ensures Valid(disk, files, fds) && r == if old(Findable(disk, files, name)) then 0 else -1
      ensures r == -1 ==> disk == old(disk) && Handles(disk, files, fds) == old(Handles(disk, files, fds))
      ensures r == 0 ==> RemovedFrom(old(disk), disk, name) && RemovedOne(old(disk), old(files), disk, name)
      ensures r == 0 ==> |fds| == old(|fds|) && forall k :: 0 <= k < |fds| ==>
        Handles(disk, files, fds)[k] == ClosedIfNamed(old(Handles(disk, files, fds))[k], name)
    {
      var slot := FindFile(name);
      if slot.None? {
        return -1;
      }
      ghost var s := slot.value;
      HeldExists(disk, files, s, name);
      FoundNamed(disk, old(files), s, name, files);
      CloseAtIsClose(disk, files, fds, s);
      SlotsDropped(disk, files, fds, s, name);
      SlotsFine(disk, files, fds);
      assert SlotOk(disk, files[s]);
      LogInside(disk, files[s].page);
      r := RemoveByPage(files[slot.value].page, true, true);
    }

    /** One turn of the copying loop of `merge_log`. */
    method CopyChunk(fd: nat, q: int, offset: nat, bufSize: Positive) returns (n: nat)
      requires Copyable(disk, files, fds, fd, q) && fds[fd].offset == offset
      modifies this`disk, this`fds
      ensures Copied(old(disk), old(fds), disk, fds, files, fd, q, offset, offset + n)
      ensures n == 0 ==> offset == |old(Handles(disk, files, fds)[fd].view)|
    {
      OpenFile(disk, files, fds, fd);
      var r, buf := CfsRead(fd, bufSize);
      n := r;
      var data := Write(disk[q].data, offset, buf);
      ChangeUnopened(disk, files, fds, q, data);
      disk := disk[q := disk[q].(data := data)];
    }

    /** The copying loop of `merge_log`: all bytes that the descriptor sees are written to the new extent. */
    method CopyContent(fd: nat, q: int, bufSize: Positive) returns (offset: nat)
      requires Copyable(disk, files, fds, fd, q) && fds[fd].offset == 0
      modifies this`disk, this`fds
      ensures Copied(old(disk), old(fds), disk, fds, files, fd, q, 0, offset)
      ensures offset == |old(Handles(disk, files, fds)[fd].view)|
    {
      offset := 0;
      OpenFile(disk, files, fds, fd);
      NothingCopied(disk, files, fds, fd, q);
      while true
        invariant Copied(old(disk), old(fds), disk, fds, files, fd, q, 0, offset)
        decreases |old(Handles(disk, files, fds)[fd].view)| - offset
      {
        ghost var disk0, fds0 := disk, fds;
        CopyAgain(old(disk), old(fds), disk, files, fds, fd, q, offset);
        var n := CopyChunk(fd, q, offset, bufSize);
        CopiedMore(old(disk), old(fds), disk0, fds0, disk, fds, files, fd, q, offset, n);
        if n == 0 {
          break;
        }
        offset := offset + n;
      }
    }

    /** The descriptors of the file at `page` move to slot `t`, which counts them. */
    method MoveByPage(page: int, ghost s: nat, t: nat)
      requires s < |files| && t < |files| && s != t && UsersAreAt(files, fds, s, page)
      modifies this`files, this`fds
      ensures fds == MoveFds(old(fds), s, t)
      ensures files == old(files)[t := old(files)[t].(references := old(files)[t].references + Refs(old(fds), s))]
    {
      var i := 0;
      while i < |fds|
        invariant 0 <= i <= |fds| == old(|fds|)
        invariant forall k :: i <= k < |fds| ==> fds[k] == old(fds)[k]
        invariant forall k :: 0 <= k < i ==> fds[k] == MoveFds(old(fds), s, t)[k]
        invariant files == old(files)[t := old(files)[t].(references := old(files)[t].references +
          Refs(old(fds)[..i], s))]
      {
        assert old(fds)[..i + 1][..i] == old(fds)[..i];
        if !fds[i].Free() && files[fds[i].file.value].page == page {
          fds := fds[i := fds[i].(file := Some(t))];
          files := files[t := files[t].(references := files[t].references + 1)];
        }
        i := i + 1;
      }
      assert old(fds)[..|fds|] == old(fds);
    }

    /** The old file of `merge_log` gives way to the new one. */
    method SwapIn(s: nat, t: nat, offset: nat)
      requires Core(disk, files, fds) && CopyOf(disk, files, s, t)
      requires files[t].references == 0 && !files[t].modified && offset == files[s].end
      modifies this`disk, this`files, this`fds
      ensures disk == MergedDisk(old(disk), old(files)[s].page, old(files)[t].page)
      ensures files == MergedFiles(old(disk), old(files), s, t) && fds == MoveFds(old(fds), s, t)
    {
      var page, q := files[s].page, files[t].page;
      var hdr := disk[page];
      SlotsFine(disk, files, fds);
      LogInside(disk, page);
      PagesOfUsers(disk, files, fds, s);
      CopyStays(disk, files, s, t);
      MoveByPage(page, s, t);
      var r := RemoveByPage(page, true, false);
      var hdr2 := disk[q];
      disk := disk[q := hdr2.(logRecords := hdr.logRecords, logRecordSize := hdr.logRecordSize)];
      files := files[t := files[t].(modified := false, end := offset)];
    }

    /** The copying of `merge_log`. */
    method CopyFile(s: nat, t: nat, fd: nat) returns (offset: nat)
      requires Mergeable(disk, files, fds, s, t, fd)
      modifies this`disk, this`fds
      ensures Core(disk, files, fds) && CopyOf(disk, files, s, t) && !disk[files[t].page].modified
      ensures offset == files[s].end
      ensures fds == old(fds)[fd := old(fds)[fd].(offset := offset)]
      ensures Handles(disk, files, fds)[fd := Closed] == old(Handles(disk, files, fds))[fd := Closed]
      ensures OtherNames(disk, files, t)
      ensures MergeOf(old(disk), MergedDisk(disk, files[s].page, files[t].page), files[s].page, files[t].page,
        files[s].end, files[t].maxPages)
    {
      var hdr := disk[files[s].page];
      CanCopy(disk, files, fds, s, t, fd);
      offset := CopyContent(fd, files[t].page, Size(hdr));
      CopyIsMade(old(disk), old(fds), disk, fds, files, s, t, fd);
    }

    /** The copy takes the place of the file. */
    method SwapCopy(s: nat, t: nat, offset: nat)
      requires Core(disk, files, fds) && CopyOf(disk, files, s, t) && !disk[files[t].page].modified
      requires files[t].references == 0 && !files[t].modified && offset == files[s].end
      requires OtherNames(disk, files, t)
      modifies this`disk, this`files, this`fds
      ensures Valid(disk, files, fds) && Handles(disk, files, fds) == old(Handles(disk, files, fds))
      ensures disk == MergedDisk(old(disk), old(files)[s].page, old(files)[t].page)
      ensures files == MergedFiles(old(disk), old(files), s, t) && fds == MoveFds(old(fds), s, t)
    {
      Merged(disk, files, fds, s, t);
      SwapIn(s, t, offset);
    }

    /** `merge_log` from the copying on, with the file open at `fd` and a new extent in slot `t`. */
    method FinishMerge(s: nat, t: nat, fd: nat)
      requires Mergeable(disk, files, fds, s, t, fd)
      modifies this`disk, this`files, this`fds
      ensures Valid(disk, files, fds)
      ensures t < |files| && files[t].maxPages > 0 && files[t].page == old(files)[t].page
      ensures fds == MoveFds(old(fds), s, t)[fd := Fd(old(files)[s].end, None, false, false, false)]
      ensures Handles(disk, files, fds) == old(Handles(disk, files, fds))[fd := Closed]
      ensures MergeOf(old(disk), disk, old(files)[s].page, files[t].page, old(files)[s].end, old(files)[t].maxPages)
    {
      ClosedMove(fds, fd, s, t, files[s].end);
      var offset := CopyFile(s, t, fd);
      SwapCopy(s, t, offset);
      CfsClose(fd);
    }

    /** A file that has a slot is opened once more for reading. */
    method OpenAgain(s: nat) returns (fd: int)
      requires Valid(disk, files, fds) && s < |files| && SlotName(disk, files[s]).Some? && files[s].end >= 0
      modifies this
      ensures Valid(disk, files, fds) && disk == old(disk) && |fds| == old(|fds|) && requests == old(requests)
      ensures fd != -1 <==> old(FdLeft(fds))
      ensures fd == -1 ==> files == old(files) && fds == old(fds)
      ensures fd != -1 ==>
        0 <= fd < |fds| && old(fds)[fd].Free() && fds == old(fds)[fd := Fd(0, Some(s), true, false, false)]
      ensures fd != -1 ==>
        files == old(files)[s := old(files)[s].(references := old(files)[s].references + 1)] &&
        files[s].references > 0
      ensures fd != -1 ==>
        Handles(disk, files, fds) == old(Handles(disk, files, fds))[fd := Handles(disk, files, fds)[fd]]
    {
      ghost var name := disk[files[s].page].name;
      assert Holds(disk, files, s, name) && Findable(disk, files, name);
      fd := CfsOpen(disk[files[s].page].name, true, false, false);
      if fd != -1 {
        RefsFine(disk, files, fds);
        ReferencedSlot(files, fds, fd, s);
      }
    }

    /** The failing end of `merge_log`: the file that was opened again is closed. */
    method BackOut(fd: nat, s: nat)
      requires Core(disk, files, fds) && NamesDistinct(disk, files) && fd < |fds| && s < |files|
      requires fds[fd] == Fd(0, Some(s), true, false, false)
      modifies this`files, this`fds
      ensures Valid(disk, files, fds) && Handles(disk, files, fds) == old(Handles(disk, files, fds))[fd := Closed]
      ensures files == old(files)[s := old(files)[s].(references := old(files)[s].references - 1)]
      ensures fds == old(fds)[fd := Fd(0, None, false, false, false)]
    {
      CfsClose(fd);
    }

    /** The new extent of `merge_log`. */
    method ReserveFor(s: nat, name: string, pages: nat, fd: nat) returns (slot: Option<nat>)
      requires Valid(disk, files, fds) && s < |files| && SlotName(disk, files[s]) == Some(name)
      requires files[s].end >= 0 && files[s].references > 0
      requires Room(pages) >= 0 && pages >= 1 && files[s].maxPages <= pages && fd < |fds|
      requires fds[fd] == Fd(0, Some(s), true, false, false)
      modifies this`disk, this`files, this`requests
      ensures Core(disk, files, fds) && Handles(disk, files, fds) == old(Handles(disk, files, fds))
      ensures requests == old(requests) + 1
      ensures slot.Some? <==> !Refused(old(disk), pages, found(old(requests))) && !SlotsTaken(old(files))
      ensures Refused(old(disk), pages, found(old(requests))) ==> disk == old(disk)
      ensures slot.None? ==>
        Valid(disk, files, fds) && files == old(files) && forall p ::
        p in old(disk) ==> p in disk && disk[p] == old(disk)[p]
      ensures slot.None? ==> disk == old(disk) || exists p :: OneMore(old(disk), disk, p, name, pages, false)
      ensures slot.Some? ==>
        Mergeable(disk, files, fds, s, slot.value, fd) && files[s] == old(files)[s] &&
        files[slot.value].maxPages == pages
      ensures slot.Some? ==> AddedTo(old(disk), disk, files[slot.value].page, files[s].page)
    {
      slot := Reserve(name, pages, false);
      if slot.None? {
        assert forall i :: 0 <= i < |files| ==> SlotName(disk, files[i]) == SlotName(old(disk), old(files)[i]);
      } else {
        ReadyToMerge(old(disk), old(files), disk, files, fds, s, slot.value, fd);
      }
    }

    /** The reservation of `merge_log`; when it fails the file that was opened again is closed. */
    method ReserveOrBackOut(s: nat, name: string, pages: nat, fd: nat) returns (slot: Option<nat>)
      requires Valid(disk, files, fds) && s < |files| && SlotName(disk, files[s]) == Some(name)
      requires files[s].end >= 0 && files[s].references > 0
      requires Room(pages) >= 0 && pages >= 1 && files[s].maxPages <= pages && fd < |fds|
      requires fds[fd] == Fd(0, Some(s), true, false, false)
      modifies this
      ensures requests == old(requests) + 1
      ensures slot.Some? <==> !Refused(old(disk), pages, found(old(requests))) && !SlotsTaken(old(files))
      ensures Refused(old(disk), pages, found(old(requests))) ==> disk == old(disk)
      ensures slot.None? ==>
        Valid(disk, files, fds) && Handles(disk, files, fds) == old(Handles(disk, files, fds))[fd := Closed]
      ensures slot.None? ==> files == old(files)[s := old(files)[s].(references := old(files)[s].references - 1)]
      ensures slot.None? ==> fds == old(fds)[fd := Fd(0, None, false, false, false)]
      ensures slot.None? ==> disk == old(disk) || LeftBehind(old(disk), disk, name)
      ensures slot.Some? ==> Mergeable(disk, files, fds, s, slot.value, fd) && fds == old(fds)
      ensures slot.Some? ==> Handles(disk, files, fds) == old(Handles(disk, files, fds))
      ensures slot.Some? ==> files[s] == old(files)[s] && files[slot.value].maxPages == pages
      ensures slot.Some? ==> AddedTo(old(disk), disk, files[slot.value].page, files[s].page)
    {
      slot := ReserveFor(s, name, pages, fd);
      if slot.None? {
        assert disk == old(disk) || LeftBehind(old(disk), disk, name);
        BackOut(fd, s);
      }
    }

    /** A descriptor, pages and a file object besides that of `s` are left for the copy. */
    ghost predicate CanMerge(s: nat, extend: bool)
      requires s < |files|
      reads this
    {
      && FdLeft(fds) && !OthersTaken(files, s)
      && !Refused(disk, MergedPages(files[s], extend), found(requests))
    }

    /** `merge_log` up to the reservation: the file is open once more and has a new extent in slot `slot`. */
    method StartMerge(s: nat, extend: bool) returns (slot: Option<nat>, fd: int)
      requires Valid(disk, files, fds) && s < |files| && SlotName(disk, files[s]).Some? && files[s].end >= 0
      modifies this
      ensures |fds| == old(|fds|)
      ensures slot.Some? <==> old(CanMerge(s, extend))
      ensures requests == old(requests) + if old(FdLeft(fds)) then 1 else 0
      ensures slot.None? ==> files == old(files)
      ensures Refused(old(disk), MergedPages(old(files)[s], extend), found(old(requests))) && slot.None? ==>
        disk == old(disk)
      ensures slot.None? ==> Valid(disk, files, fds) && Handles(disk, files, fds) == old(Handles(disk, files, fds))
      ensures slot.None? ==>
        fds == old(fds) || (0 <= fd < |fds| && old(fds)[fd].Free() &&
          fds == old(fds)[fd := Fd(0, None, false, false, false)])
      ensures slot.None? ==> disk == old(disk) || LeftBehind(old(disk), disk, old(disk)[old(files)[s].page].name)
      ensures slot.Some? ==> 0 <= fd < |fds| && Mergeable(disk, files, fds, s, slot.value, fd)
      ensures slot.Some? ==> old(fds)[fd].Free() && fds == old(fds)[fd := Fd(0, Some(s), true, false, false)]
      ensures slot.Some? ==>
        Handles(disk, files, fds) == old(Handles(disk, files, fds))[fd := Handles(disk, files, fds)[fd]]
      ensures slot.Some? ==>
        var f := old(files)[s];
        && files[s].page == f.page && files[s].end == f.end &&
          files[slot.value].maxPages == (if extend then 2 * f.maxPages else f.maxPages)
        && AddedTo(old(disk), disk, files[slot.value].page, f.page)
    {
      var hdr := disk[files[s].page];
      SlotsFine(disk, files, fds);
      RoomOfSlot(disk, files, s);
      fd := OpenAgain(s);
      if fd < 0 {
        return None, fd;
      }
      var maxPages := if extend then 2 * hdr.pages else hdr.pages;
      RoomMonotone(hdr.pages, maxPages);
      OneMoreReference(old(files), files, s);
      slot := ReserveOrBackOut(s, hdr.name, maxPages, fd);
    }

    /**
     `merge_log`: the file of slot `s` is rewritten into a new extent, twice as large if it is extended, and the
     old extent and its log become obsolete. It succeeds exactly if a descriptor, pages and a file object are left for
     the copy. No descriptor notices, whether it succeeds or fails.
     */
    method MergeLog(s: nat, extend: bool) returns (r: int, ghost t: nat)
      requires Valid(disk, files, fds) && s < |files| && SlotName(disk, files[s]).Some? && files[s].end >= 0
      modifies this
      ensures Valid(disk, files, fds) && Handles(disk, files, fds) == old(Handles(disk, files, fds))
      ensures r == if old(CanMerge(s, extend)) then 0 else -1
      ensures requests == old(requests) + if old(FdLeft(fds)) then 1 else 0
      ensures r == -1 ==> files == old(files)
      ensures Refused(old(disk), MergedPages(old(files)[s], extend), found(old(requests))) && r == -1 ==>
        disk == old(disk)
      ensures r == 0 ==> t < |files| && t != s && files[t].maxPages > 0 && files[t].page !in old(disk)
      ensures r == 0 ==>
        MergeOf(old(disk), disk, old(files)[s].page, files[t].page, old(files)[s].end, if extend then
        2 * old(files)[s].maxPages else old(files)[s].maxPages)
      ensures r == 0 ==>
        |fds| == old(|fds|) && forall k ::
        0 <= k < |fds| && !old(fds)[k].Free() ==> fds[k] == MoveFds(old(fds), s, t)[k]
      ensures r == -1 ==>
        |fds| == old(|fds|) && forall k :: 0 <= k < |fds| && !old(fds)[k].Free() ==> fds[k] == old(fds)[k]
      ensures r == -1 ==> forall p :: p in old(disk) ==> p in disk && disk[p] == old(disk)[p]
      ensures old(NamesUnique(disk)) ==> (NamesUnique(disk) <==> r == 0 || disk == old(disk))
      ensures r == 0 ==> forall name :: Exists(disk, name) <==> Exists(old(disk), name)
    {
      ghost var disk0 := disk;
      DiskFine(disk, files, fds);
      t := 0;
      var slot, fd := StartMerge(s, extend);
      if slot.None? {
        if disk != old(disk) {
          LeftBehindKeeps(old(disk), disk, old(disk)[old(files)[s].page].name);
          LeftBehindNames(old(disk), disk, old(files), s);
        }
        return -1, t;
      }
      t := slot.value;
      MergeOfOlder(old(disk), disk, files[s].page, files[t].page);
      ghost var p, q, end, pages := files[s].page, files[t].page, files[s].end, files[t].maxPages;
      FinishMerge(s, slot.value, fd);
      assert MergeOf(disk0, disk, p, q, end, pages);
      MergeKeepsNames(disk0, disk, p, q, end, pages);
      r := 0;
    }

    /** `create_log`: an unmodified file gets an empty log, if there are pages and a file object for it. */
    method CreateLog(s: nat) returns (page: int)
      requires Valid(disk, files, fds) && s < |files| && SlotName(disk, files[s]).Some? && !files[s].modified
      requires files[s].references > 0
      modifies this`disk, this`files, this`requests
      ensures requests == old(requests) + 1
      ensures page != INVALID_PAGE <==>
        !Refused(old(disk), LogPageCount(old(disk)[old(files)[s].page]), found(old(requests))) &&
          !SlotsTaken(old(files))
      ensures Refused(old(disk), LogPageCount(old(disk)[old(files)[s].page]), found(old(requests))) ==>
        disk == old(disk)
      ensures page == INVALID_PAGE ==> files == old(files)
      ensures Valid(disk, files, fds) && Handles(disk, files, fds) == old(Handles(disk, files, fds))
      ensures page != INVALID_PAGE ==> page !in old(disk) && files[s] == old(files)[s].(modified := true)
      ensures files[s].page in disk && forall p ::
        p in old(disk) ==> p in disk && (p != files[s].page || page == INVALID_PAGE ==> disk[p] == old(disk)[p])
      ensures page != INVALID_PAGE ==>
        var e := disk[files[s].page];
        && e == old(disk)[files[s].page].(modified := true, logPage := page)
        && LogOk(disk, e) && LogCount(disk[page].data, Records(e), 0) && Content(disk, e) == e.data
    {
      ghost var disk0 := disk;
      DiskFine(disk, files, fds);
      var hdr := disk[files[s].page];
      var size := Records(hdr) * (2 + Size(hdr));
      LogPages(Records(hdr), Size(hdr));
      PageCountHolds(size);
      assert PageCount(size) == LogPageCount(hdr);
      var slot := Reserve(hdr.name, PageCount(size), true);
      ghost var t := if slot.Some? then slot.value else |files|;
      SameNames(old(disk), old(files), disk, files, slot);
      if slot.None? {
        return INVALID_PAGE;
      }
      page := files[slot.value].page;
      assert page != INVALID_PAGE by { DiskFine(disk, files, fds); }
      EmptyLogFits(disk[page].data, Records(hdr), Size(hdr));
      NoOwner(disk0, disk, page);
      AttachLog(disk, files, fds, s, page);
      hdr := hdr.(modified := true, logPage := page);
      disk := disk[files[s].page := hdr];
      files := files[s := files[s].(modified := true)];
    }

    /** The bytes that happen to lie behind an extent. */
    method Beyond(n: nat) returns (bytes: seq<Byte>)
      ensures |bytes| == n
    {
      bytes := ZeroBytes(n);
    }

    /** A whole region as it reads now. */
    method CopyRegion(hdr: Extent, logRecord: nat, offset: nat) returns (copy: seq<Byte>)
      requires hdr.modified && LogOk(disk, hdr) && LogCount(disk[hdr.logPage].data, Records(hdr), logRecord)
      requires offset % Size(hdr) == 0 && offset <= |hdr.data|
      ensures |copy| == Size(hdr) && ShowsRegion(Content(disk, hdr), offset, copy)
    {
      var found, size := ReadLogPage(hdr, logRecord, offset, Size(hdr));
      WholeRegion(disk, hdr, offset, found);
      if found.Some? {
        copy := found.value;
      } else if offset + Size(hdr) <= |hdr.data| {
        copy := hdr.data[offset..offset + Size(hdr)];
      } else {
        var rest := Beyond(offset + Size(hdr) - |hdr.data|);
        copy := hdr.data[offset..] + rest;
      }
    }

    /** The copy of a region that `write_log_page` makes, with the new bytes over it. */
    method RegionWith(hdr: Extent, logRecord: nat, region: nat, inRegion: nat, buf: seq<Byte>) returns (rec: seq<Byte>)
      requires hdr.modified && LogOk(disk, hdr) && LogCount(disk[hdr.logPage].data, Records(hdr), logRecord)
      requires inRegion + |buf| <= Size(hdr) && |buf| >= 1 && Size(hdr) * region <= |hdr.data|
      ensures RegionCopy(Content(disk, hdr), Size(hdr), region, inRegion, buf, rec)
    {
      var copy := Beyond(Size(hdr));
      if inRegion > 0 || |buf| != Size(hdr) {
        ModOfProduct(region, Size(hdr));
        copy := CopyRegion(hdr, logRecord, Size(hdr) * region);
      }
      RegionCopied(Content(disk, hdr), Size(hdr), region, inRegion, buf, copy);
      rec := Write(copy, inRegion, buf);
    }

    /** A record for `region` is appended, with `buf` at `inRegion` of it. */
    method AppendAt(s: nat, logRecord: nat, region: nat, inRegion: nat, offset: nat, buf: seq<Byte>)
      requires Valid(disk, files, fds) && s < |files| && SlotName(disk, files[s]).Some? && files[s].modified
      requires var e := disk[files[s].page];
        && e.modified && LogOk(disk, e) && LogCount(disk[e.logPage].data, Records(e), logRecord) &&
          logRecord < Records(e)
        && offset + |buf| <= |e.data| && |buf| >= 1 && inRegion + |buf| <= Size(e)
        && offset == Size(e) * region + inRegion && region < 65535
      modifies this`disk, this`files
      ensures Valid(disk, files, fds) && files == old(files)[s := old(files)[s].(recordCount := logRecord + 1)]
      ensures files[s].page in disk && disk[files[s].page] == old(disk)[files[s].page]
      ensures FreeRecords(disk, disk[files[s].page], Records(disk[files[s].page]) - logRecord - 1)
      ensures Content(disk, disk[files[s].page]) == Write(old(Content(disk, disk[files[s].page])), offset, buf)
      ensures forall i :: 0 <= i < |fds| && !fds[i].Uses(s) ==>
        Handles(disk, files, fds)[i] == old(Handles(disk, files, fds))[i]
    {
      var hdr := disk[files[s].page];
      DiskFine(disk, files, fds);
      SlotFine(disk, files, fds, s);
      var rec := RegionWith(hdr, logRecord, region, inRegion, buf);
      AppendRecord(disk, files, fds, s, logRecord, region, rec);
      WithRecordIndex(disk[hdr.logPage].data, Records(hdr), Size(hdr), logRecord, region, rec);
      AppendChangesRange(hdr.data, disk[hdr.logPage].data, Records(hdr), Size(hdr), logRecord, region, inRegion, buf,
        rec, offset);
      disk := Appended(disk, hdr, logRecord, region, rec);
      files := files[s := files[s].(recordCount := logRecord + 1)];
    }

    /** The second half of `write_log_page`: one record is appended to the log. */
    method WriteRecord(s: nat, logRecord: nat, offset: nat, buf: seq<Byte>)
      requires Valid(disk, files, fds) && s < |files| && SlotName(disk, files[s]).Some? && files[s].modified
      requires var e := disk[files[s].page];
        && e.modified && LogOk(disk, e) && LogCount(disk[e.logPage].data, Records(e), logRecord) &&
          logRecord < Records(e)
        && offset + |buf| <= |e.data| && |buf| >= 1 && offset % Size(e) + |buf| <= Size(e)
      modifies this`disk, this`files
      ensures Valid(disk, files, fds) && files == old(files)[s := old(files)[s].(recordCount := logRecord + 1)]
      ensures files[s].page in disk && disk[files[s].page] == old(disk)[files[s].page]
      ensures FreeRecords(disk, disk[files[s].page], Records(disk[files[s].page]) - logRecord - 1)
      ensures Content(disk, disk[files[s].page]) == Write(old(Content(disk, disk[files[s].page])), offset, buf)
      ensures forall i :: 0 <= i < |fds| && !fds[i].Uses(s) ==>
        Handles(disk, files, fds)[i] == old(Handles(disk, files, fds))[i]
    {
      var hdr := disk[files[s].page];
      var region, inRegion := offset / Size(hdr), offset % Size(hdr);
      SlotsFine(disk, files, fds);
      RegionsOfSlot(disk, files, s, offset);
      DivMod(offset, Size(hdr));
      AppendAt(s, logRecord, region, inRegion, offset, buf);
    }

    /** Where pages were found at the last request. */
    function Asked(): int
      reads this
    {
      if requests == 0 then INVALID_PAGE else found(requests - 1)
    }

    /** There is no way to go on: since `before` requests, if it was about pages. */
    ghost predicate IsDenied(e: Extent, before: nat)
      reads this
    {
      Denied(disk, files, fds, e, requests > before, Asked())
    }

    /** A full log is merged instead of written. */
    method MergeInstead(s: nat) returns (i: int, ghost t: nat)
      requires Valid(disk, files, fds) && s < |files| && SlotName(disk, files[s]).Some? && files[s].end >= 0
      requires files[s].references > 0
      modifies this
      ensures Valid(disk, files, fds) && |fds| == old(|fds|) && (i == 0 || i == -1) && requests >= old(requests)
      ensures Handles(disk, files, fds) == old(Handles(disk, files, fds))
      ensures i == -1 ==> forall k :: 0 <= k < |fds| && !old(fds)[k].Free() ==> fds[k] == old(fds)[k]
      ensures i == -1 ==>
        files == old(files) && files[s].page in disk && disk[files[s].page] == old(disk[files[s].page])
      ensures i == -1 ==> IsDenied(disk[files[s].page], old(requests))
      ensures i == 0 ==> t < |files| && t != s && files[t].maxPages == old(files)[s].maxPages && !files[t].modified
      ensures i == 0 ==> files[t].page in disk && !disk[files[t].page].modified
      ensures i == 0 ==> SameConfig(old(disk[files[s].page]), disk[files[t].page])
      ensures i == 0 ==> forall k :: 0 <= k < |fds| && !old(fds)[k].Free() ==> fds[k] == MoveFds(old(fds), s, t)[k]
    {
      ghost var disk0, files0, fds0, file := disk, files, fds, files[s];
      SlotsFine(disk, files, fds);
      RoomOfSlot(disk, files, s);
      i, t := MergeLog(s, false);
      if i == 0 {
        MergedSlot(disk, files, fds, t, disk0, file.page, file.end, file.maxPages);
        SameSize(disk0[file.page], disk[files[t].page]);
      } else {
        MergeDenied(disk0, files0, fds0, disk, fds, s, false, disk[files[s].page], Asked());
      }
    }

    /** A file without a log gets one, and its first record. */
    method LogFirst(s: nat, offset: nat, buf: seq<Byte>) returns (ok: bool)
      requires Valid(disk, files, fds) && s < |files| && SlotName(disk, files[s]).Some? && !files[s].modified
      requires files[s].references > 0
      requires var e := disk[files[s].page];
        offset + |buf| <= |e.data| && |buf| >= 1 && offset % Size(e) + |buf| <= Size(e) && Records(e) >= 1
      modifies this`disk, this`files, this`requests
      ensures Valid(disk, files, fds) && files[s].page in disk && files[s].page == old(files[s].page)
      ensures requests >= old(requests)
      ensures !ok ==> Handles(disk, files, fds) == old(Handles(disk, files, fds)) && files == old(files)
      ensures !ok ==> disk[files[s].page] == old(disk[files[s].page]) && IsDenied(disk[files[s].page], old(requests))
      ensures ok ==> Written(old(disk), old(files), fds, disk, files, s, offset, buf)
      ensures ok ==> SameConfig(old(disk[files[s].page]), disk[files[s].page])
      ensures ok ==> Left(disk, disk[files[s].page]) + 1 == Records(disk[files[s].page])
    {
      var hdr := disk[files[s].page];
      SlotsFine(disk, files, fds);
      LogOfSlot(disk, files, s);
      var page := CreateLog(s);
      ok := page != INVALID_PAGE;
      if ok {
        SameSize(hdr, disk[files[s].page]);
        WriteRecord(s, 0, offset, buf);
        LeftIs(disk, disk[files[s].page], Records(hdr) - 1);
      }
    }

    /** A file with a log gets one more record, or its log is merged if it is full. */
    method LogNext(s: nat, offset: nat, buf: seq<Byte>) returns (i: int, ghost t: nat)
      requires Valid(disk, files, fds) && s < |files| && SlotName(disk, files[s]).Some? && files[s].end >= 0
      requires files[s].references > 0 && files[s].modified
      requires var e := disk[files[s].page];
        offset + |buf| <= |e.data| && |buf| >= 1 && offset % Size(e) + |buf| <= Size(e)
      modifies this
      ensures Valid(disk, files, fds) && |fds| == old(|fds|) && (i == -1 || i == 0 || i == |buf|)
      ensures requests >= old(requests)
      ensures i <= 0 ==> Handles(disk, files, fds) == old(Handles(disk, files, fds))
      ensures i <= 0 ==> old(Left(disk, disk[files[s].page])) == 0
      ensures i == -1 ==> forall k :: 0 <= k < |fds| && !old(fds)[k].Free() ==> fds[k] == old(fds)[k]
      ensures i == -1 ==>
        files == old(files) && files[s].page in disk && disk[files[s].page] == old(disk[files[s].page])
      ensures i == -1 ==> IsDenied(disk[files[s].page], old(requests))
      ensures i == 0 ==> t < |files| && t != s && files[t].maxPages == old(files)[s].maxPages && !files[t].modified
      ensures i == 0 ==> files[t].page in disk && !disk[files[t].page].modified
      ensures i == 0 ==> SameConfig(old(disk[files[s].page]), disk[files[t].page])
      ensures i == 0 ==> forall k :: 0 <= k < |fds| && !old(fds)[k].Free() ==> fds[k] == MoveFds(old(fds), s, t)[k]
      ensures i > 0 ==> fds == old(fds) && Written(old(disk), old(files), fds, disk, files, s, offset, buf)
      ensures i > 0 ==> files[s].page in disk && files[s].page == old(files[s].page)
      ensures i > 0 ==> disk[files[s].page] == old(disk[files[s].page])
      ensures i > 0 ==> old(Left(disk, disk[files[s].page])) == Left(disk, disk[files[s].page]) + 1
    {
      t := 0;
      var hdr := disk[files[s].page];
      SlotsFine(disk, files, fds);
      LogOfSlot(disk, files, s);
      LeftIsFree(disk, hdr);
      NoFreeRecord(disk, files, s, Left(disk, hdr));
      var logRecord := FindNextRecord(files[s].recordCount, disk[hdr.logPage].data, Records(hdr));
      if logRecord >= Records(hdr) {
        i, t := MergeInstead(s);
        return;
      }
      WriteRecord(s, logRecord, offset, buf);
      LeftIs(disk, disk[files[s].page], Records(hdr) - logRecord - 1);
      i := |buf|;
    }

    /**
     `write_log_page`: as much of `buf` as its region takes goes into a new record. A full log is merged
     instead, and then nothing is written yet (0); without room for a log or a merged file it fails (-1).
     */
    method WriteLogPage(s: nat, offset: nat, buf: seq<Byte>) returns (i: int, ghost t: nat)
      requires Valid(disk, files, fds) && s < |files| && SlotName(disk, files[s]).Some? && files[s].end >= 0
      requires files[s].references > 0
      requires |buf| >= 1 && offset + |buf| <= |disk[files[s].page].data|
      modifies this
      ensures Valid(disk, files, fds) && |fds| == old(|fds|) && requests >= old(requests)
      ensures i == 0 || i == -1 || i == Trimmed(old(disk)[old(files)[s].page], offset, |buf|)
      ensures i <= 0 ==> Handles(disk, files, fds) == old(Handles(disk, files, fds))
      ensures i <= 0 ==> old(Left(disk, disk[files[s].page])) == 0
      ensures i == -1 ==> forall k :: 0 <= k < |fds| && !old(fds)[k].Free() ==> fds[k] == old(fds)[k]
      ensures i == -1 ==>
        files == old(files) && files[s].page in disk && disk[files[s].page] == old(disk[files[s].page])
      ensures i == -1 ==> IsDenied(disk[files[s].page], old(requests))
      ensures i == 0 ==>
        old(files)[s].modified && t < |files| && t != s && files[t].maxPages == old(files)[s].maxPages &&
        !files[t].modified
      ensures i == 0 ==> files[t].page in disk && !disk[files[t].page].modified
      ensures i == 0 ==> SameConfig(old(disk[files[s].page]), disk[files[t].page])
      ensures i == 0 ==> forall k :: 0 <= k < |fds| && !old(fds)[k].Free() ==> fds[k] == MoveFds(old(fds), s, t)[k]
      ensures i > 0 ==> fds == old(fds) && Written(old(disk), old(files), fds, disk, files, s, offset, buf[..i])
      ensures i > 0 ==> files[s].page in disk && files[s].page == old(files[s].page)
      ensures i > 0 ==> Recorded(old(disk), old(disk[files[s].page]), disk, disk[files[s].page])
    {
      t := 0;
      var hdr := disk[files[s].page];
      var size := Trimmed(hdr, offset, |buf|);
      SlotsFine(disk, files, fds);
      RoomOfSlot(disk, files, s);
      LogOfSlot(disk, files, s);
      if hdr.modified {
        i, t := LogNext(s, offset, buf[..size]);
      } else {
        var ok := LogFirst(s, offset, buf[..size]);
        i := if ok then size else -1;
      }
    }

    /** The descriptor moves behind the bytes that were written, and the end of the file with it if it must. */
    method Advance(fd: nat, s: nat, n: nat)
      requires fd < |fds| && s < |files|
      modifies this`files, this`fds
      ensures fds == old(fds)[fd := old(fds)[fd].(offset := old(fds)[fd].offset + n)]
      ensures files == WithEnd(old(files), s, old(fds)[fd].offset + n)
    {
      fds := fds[fd := fds[fd].(offset := fds[fd].offset + n)];
      files := WithEnd(files, s, fds[fd].offset);
    }

    /** An open descriptor with room for `size` bytes behind its offset. */
    ghost predicate HasRoom(fd: nat, size: nat) reads this {
      && fd < |fds| && !fds[fd].Free() && fds[fd].file.Some? && fds[fd].file.value < |files|
      && fds[fd].offset + size <= Room(files[fds[fd].file.value].maxPages)
    }

    /** The extent of the file that descriptor `fd` is open on. */
    ghost function ExtentOf(fd: nat): Extent
      reads this
    {
      if fd < |fds| && fds[fd].file.Some? && fds[fd].file.value < |files| && files[fds[fd].file.value].page in disk
      then disk[files[fds[fd].file.value].page] else FreshExtent("", PageCount(0), false)
    }

    /** One extension of the file of a descriptor. */
    method Extend(fd: nat, s: nat) returns (ok: bool, ghost t: nat)
      requires Valid(disk, files, fds) && fd < |fds| && !fds[fd].Free() && fds[fd].file == Some(s)
      modifies this
      ensures Valid(disk, files, fds) && Handles(disk, files, fds) == old(Handles(disk, files, fds))
      ensures requests >= old(requests) && fd < |fds| && !fds[fd].Free() && fds[fd].offset == old(fds[fd].offset)
      ensures s < |old(files)|
      ensures ok ==> fds[fd].file == Some(t) && t < |files| && files[t].maxPages == 2 * old(files)[s].maxPages
      ensures ok ==> old(files)[s].maxPages >= 1
      ensures ok ==> SameConfig(old(ExtentOf(fd)), ExtentOf(fd)) && !ExtentOf(fd).modified
      ensures !ok ==> IsDenied(ExtentOf(fd), old(requests))
    {
      OpenFile(disk, files, fds, fd);
      SlotsFine(disk, files, fds);
      RoomOfSlot(disk, files, s);
      RefsFine(disk, files, fds);
      ReferencedSlot(files, fds, fd, s);
      RoomGrows(files[s].maxPages);
      ghost var disk0, files0, fds0 := disk, files, fds;
      var r;
      r, t := MergeLog(s, true);
      ok := r == 0;
      if ok {
        MergedSlot(disk, files, fds, t, disk0, files0[s].page, files0[s].end, 2 * files0[s].maxPages);
        SameSize(disk0[files0[s].page], disk[files[t].page]);
      } else {
        MergeDenied(disk0, files0, fds0, disk, fds, s, true, disk[files[s].page], Asked());
      }
    }

    /** The loop of `cfs_write` that extends a file until the bytes fit behind the offset. */
    method MakeRoom(fd: nat, size: nat) returns (ok: bool)
      requires Valid(disk, files, fds) && fd < |fds| && !fds[fd].Free()
      modifies this
      ensures Valid(disk, files, fds) && Handles(disk, files, fds) == old(Handles(disk, files, fds))
      ensures fd < |fds| && !fds[fd].Free() && fds[fd].offset == old(fds[fd].offset) && requests >= old(requests)
      ensures ok ==> HasRoom(fd, size)
      ensures old(HasRoom(fd, size)) ==>
        ok && disk == old(disk) && files == old(files) && fds == old(fds) && requests == old(requests)
      ensures ok && !old(HasRoom(fd, size)) ==> SameConfig(old(ExtentOf(fd)), ExtentOf(fd)) && !ExtentOf(fd).modified
      ensures !ok ==> IsDenied(ExtentOf(fd), old(requests))
    {
      OpenFile(disk, files, fds, fd);
      var s := fds[fd].file.value;
      ghost var extended := false;
      while size + fds[fd].offset + HDR_SIZE > files[s].maxPages * PAGE_SIZE
        invariant Valid(disk, files, fds) && Handles(disk, files, fds) == old(Handles(disk, files, fds))
        invariant fd < |fds| && !fds[fd].Free() && fds[fd].file == Some(s) && s < |files|
        invariant fds[fd].offset == old(fds)[fd].offset && requests >= old(requests)
        invariant SameConfig(old(ExtentOf(fd)), ExtentOf(fd))
        invariant if extended then !old(HasRoom(fd, size)) && !ExtentOf(fd).modified
                  else disk == old(disk) && files == old(files) && fds == old(fds) && requests == old(requests)
        decreases size + fds[fd].offset - Room(files[s].maxPages)
      {
        ghost var t;
        RoomGrows(files[s].maxPages);
        ok, t := Extend(fd, s);
        if !ok {
          return;
        }
        s := fds[fd].file.value;
        extended := true;
      }
      ok := true;
    }

    /** The descriptor moves behind bytes that were written into its file. */
    method MoveOn(fd: nat, s: nat, bytes: seq<Byte>, ghost disk0: Disk, ghost files0: seq<File>, ghost h0: seq<Handle>,
                  ghost done: seq<Byte>)
      requires fd < |fds| && fds[fd].Uses(s) && Written(disk0, files0, fds, disk, files, s, fds[fd].offset, bytes)
      requires WroteThrough(h0, Handles(disk0, files0, fds), fd, done)
      modifies this`files, this`fds
      ensures Valid(disk, files, fds) && WroteThrough(h0, Handles(disk, files, fds), fd, done + bytes)
      ensures fds == old(fds)[fd := old(fds)[fd].(offset := old(fds)[fd].offset + |bytes|)]
      ensures s < |old(files)| && files == WithEnd(old(files), s, old(fds)[fd].offset + |bytes|)
    {
      ghost var at := fds[fd].offset + |bytes|;
      ghost var files1, fds1 := WithEnd(files, s, at), fds[fd := fds[fd].(offset := at)];
      HandlesWritten(disk0, files0, disk, files, fds, fd, s, bytes, at);
      WroteTwice(h0, Handles(disk0, files0, fds), Handles(disk, files1, fds1), fd, done, bytes);
      Advance(fd, s, |bytes|);
      assert files == files1 && fds == fds1;
    }

    /** One turn of the loop of `cfs_write` over the regions of a file with a log, after `done` was written. */
    method WriteChunk(fd: nat, rest: seq<Byte>, ghost h0: seq<Handle>, ghost done: seq<Byte>) returns (i: int)
      requires Valid(disk, files, fds) && HasRoom(fd, |rest|) && |rest| >= 1
      requires WroteThrough(h0, Handles(disk, files, fds), fd, done)
      modifies this
      ensures Valid(disk, files, fds) && -1 <= i <= |rest| && requests >= old(requests)
      ensures i >= 0 ==> HasRoom(fd, |rest| - i) && fds[fd].offset == old(fds[fd].offset) + i
      ensures i == 0 ==> old(files[fds[fd].file.value].modified) && !files[fds[fd].file.value].modified
      ensures WroteThrough(h0, Handles(disk, files, fds), fd, if i > 0 then done + rest[..i] else done)
      ensures i > 0 ==> i == Trimmed(old(ExtentOf(fd)), old(fds[fd].offset), |rest|)
      ensures i > 0 ==> Recorded(old(disk), old(ExtentOf(fd)), disk, ExtentOf(fd))
      ensures i == 0 ==> Emptied(old(disk), old(ExtentOf(fd)), disk, ExtentOf(fd))
      ensures i == -1 ==> old(Left(disk, ExtentOf(fd))) == 0 && IsDenied(ExtentOf(fd), old(requests))
    {
      OpenFile(disk, files, fds, fd);
      var s := fds[fd].file.value;
      RefsFine(disk, files, fds);
      ReferencedSlot(files, fds, fd, s);
      ghost var disk0, files0 := disk, files;
      ghost var t;
      i, t := WriteLogPage(s, fds[fd].offset, rest);
      if i > 0 {
        MoveOn(fd, s, rest[..i], disk0, files0, h0, done);
      }
    }

    /** What is known of a write of `n` bytes through descriptor `fd`. */
    ghost function WriteOf(fd: nat, n: nat): (w: LogWrite)
      reads this
    {
      LogWrite(ExtentOf(fd), if fd < |fds| then fds[fd].offset else 0, n, Left(disk, ExtentOf(fd)))
    }

    /** One turn of the loop, and how far the write has come then. */
    method WriteMore(fd: nat, rest: seq<Byte>, ghost h0: seq<Handle>, ghost done: seq<Byte>, ghost w: LogWrite,
                     ghost logs: nat)
      returns (i: int, ghost logs': nat)
      requires Valid(disk, files, fds) && HasRoom(fd, |rest|) && |rest| >= 1 && w.n == |done| + |rest|
      requires WroteThrough(h0, Handles(disk, files, fds), fd, done)
      requires OnCourse(SEAL, w, disk, ExtentOf(fd), fds[fd].offset, |done|, logs)
      modifies this
      ensures Valid(disk, files, fds) && -1 <= i <= |rest| && requests >= old(requests)
      ensures i >= 0 ==> HasRoom(fd, |rest| - i)
      ensures i == 0 ==> old(files[fds[fd].file.value].modified) && !files[fds[fd].file.value].modified
      ensures WroteThrough(h0, Handles(disk, files, fds), fd, if i > 0 then done + rest[..i] else done)
      ensures i < 0 ==> LogWritten(w.e, w.offset, w.n, w.free, |done|, logs') && IsDenied(ExtentOf(fd), old(requests))
      ensures i >= 0 ==> OnCourse(SEAL, w, disk, ExtentOf(fd), fds[fd].offset, |done| + i, logs')
    {
      ghost var disk0, e0, at0 := disk, ExtentOf(fd), fds[fd].offset;
      i := WriteChunk(fd, rest, h0, done);
      logs' := logs;
      if i < 0 {
        ProgressEnds(w, disk0, e0, at0, |done|, logs);
      } else if i > 0 {
        ProgressMade(w, disk0, e0, at0, |done|, logs, disk, ExtentOf(fd), fds[fd].offset, i);
        logs' := LogsThen(e0, logs);
      } else {
        ProgressMerged(w, disk0, e0, at0, |done|, logs, disk, ExtentOf(fd));
      }
    }

    /** The turns of the loop, begun with handles `h0`. */
    method WriteTurns(fd: nat, buf: seq<Byte>, ghost h0: seq<Handle>, ghost w: LogWrite)
      returns (bytesLeft: nat, ghost done: seq<Byte>, ghost logs: nat)
      requires Valid(disk, files, fds) && HasRoom(fd, |buf|) && w.n == |buf|
      requires WroteThrough(h0, Handles(disk, files, fds), fd, [])
      requires OnCourse(SEAL, w, disk, ExtentOf(fd), fds[fd].offset, 0, 0)
      modifies this
      ensures Valid(disk, files, fds) && done <= buf && bytesLeft == |buf| - |done|
      ensures WroteThrough(h0, Handles(disk, files, fds), fd, done)
      ensures LogWritten(w.e, w.offset, w.n, w.free, |done|, logs)
      ensures bytesLeft > 0 ==> IsDenied(ExtentOf(fd), old(requests))
    {
      done, logs := [], 0;
      var rest := buf;
      while |rest| > 0
        invariant Valid(disk, files, fds) && HasRoom(fd, |rest|) && requests >= old(requests)
        invariant WroteThrough(h0, Handles(disk, files, fds), fd, done)
        invariant done + rest == buf
        invariant OnCourse(SEAL, w, disk, ExtentOf(fd), fds[fd].offset, |done|, logs)
        decreases |rest|, files[fds[fd].file.value].modified
      {
        var i;
        i, logs := WriteMore(fd, rest, h0, done, w, logs);
        if i < 0 {
          bytesLeft := |rest|;
          return;
        } else if i > 0 {
          PartsJoin(done, rest, i);
          done, rest := done + rest[..i], rest[i..];
        }
      }
      ProgressEnds(w, disk, ExtentOf(fd), fds[fd].offset, |done|, logs);
      bytesLeft := 0;
    }

    /**
     The loop of `cfs_write` over the regions of a file with a log; `done` is what it could write, and `logs` counts
     the logs created on the way.
     */
    method WriteThroughLog(fd: nat, buf: seq<Byte>) returns (bytesLeft: nat, ghost done: seq<Byte>, ghost logs: nat)
      requires Valid(disk, files, fds) && HasRoom(fd, |buf|)
      modifies this
      ensures Valid(disk, files, fds) && done <= buf && bytesLeft == |buf| - |done|
      ensures WroteThrough(old(Handles(disk, files, fds)), Handles(disk, files, fds), fd, done)
      ensures LogEnded(old(WriteOf(fd, |buf|)), |done|, logs)
      ensures bytesLeft > 0 ==> IsDenied(ExtentOf(fd), old(requests))
    {
      WroteNothing(disk, files, fds, fd);
      ProgressBegins(disk, ExtentOf(fd), fds[fd].offset, |buf|);
      bytesLeft, done, logs := WriteTurns(fd, buf, Handles(disk, files, fds), WriteOf(fd, |buf|));
    }

    /** Bytes behind the end of a file without a log are written into its extent. */
    method WriteExtent(fd: nat, buf: seq<Byte>)
      requires Valid(disk, files, fds) && HasRoom(fd, |buf|) && !files[fds[fd].file.value].modified
      modifies this`disk, this`files, this`fds
      ensures Valid(disk, files, fds)
      ensures WroteThrough(old(Handles(disk, files, fds)), Handles(disk, files, fds), fd, buf)
    {
      var s := fds[fd].file.value;
      RoomOfOpen(disk, files, fds, fd);
      ghost var at := fds[fd].offset + |buf|;
      ghost var disk1, files1 := ExtentAfter(disk, files[s].page, fds[fd].offset, buf), WithEnd(files, s, at);
      ghost var fds1 := fds[fd := fds[fd].(offset := at)];
      ExtentWritten(disk, files, fds, s, fds[fd].offset, buf);
      HandlesWritten(disk, files, disk1, files, fds, fd, s, buf, at);
      disk := ExtentAfter(disk, files[s].page, fds[fd].offset, buf);
      Advance(fd, s, |buf|);
      assert disk == disk1 && files == files1 && fds == fds1;
    }

    /** `cfs_write` once the bytes fit: into the log if there is one or must be one, else into the extent. */
    method WriteBytes(fd: nat, buf: seq<Byte>) returns (r: int, ghost done: seq<Byte>, ghost logs: nat)
      requires Valid(disk, files, fds) && HasRoom(fd, |buf|)
      modifies this
      ensures Valid(disk, files, fds) && done <= buf && WriteReported(r, |buf|, |done|)
      ensures WroteThrough(old(Handles(disk, files, fds)), Handles(disk, files, fds), fd, done)
      ensures if old(AppendsInside(fd, |buf|)) then done == buf else LogEnded(old(WriteOf(fd, |buf|)), |done|, logs)
      ensures done != buf ==> IsDenied(ExtentOf(fd), old(requests))
    {
      var file := files[fds[fd].file.value];
      OpenFile(disk, files, fds, fd);
      logs := 0;
      if file.modified || fds[fd].offset < file.end {
        var bytesLeft;
        bytesLeft, done, logs := WriteThroughLog(fd, buf);
        if bytesLeft > 0 && bytesLeft == |buf| {
          return -1, done, logs;
        }
      } else {
        SlotsFine(disk, files, fds);
        LogOfSlot(disk, files, fds[fd].file.value);
        WriteExtent(fd, buf);
        done := buf;
      }
      r := |buf|;
    }

    /**
     `cfs_write`. The bytes go to the offset of the descriptor and every descriptor of the file sees them there,
     and nothing else; a write behind the end makes the file longer. What is written is a prefix `done`, and it is not
     all only if no descriptor, no file object or no pages are left. The result is -1 if it is empty, and otherwise, as
     always, the size asked for. How long it is follows from the regions touched, the records left and the number `logs`
     of logs created; with enough records left it is all, and with none left but enough in one log it is all or nothing.
     */
    method CfsWrite(fd: int, buf: seq<Byte>) returns (r: int, ghost done: seq<Byte>, ghost logs: nat)
      requires Valid(disk, files, fds)
      modifies this
      ensures Valid(disk, files, fds)
      ensures !(old(FdValid(fd)) && old(fds)[fd].write) ==>
        r == -1 && disk == old(disk) && files == old(files) && fds == old(fds)
      ensures old(FdValid(fd)) && old(fds)[fd].write ==>
        && done <= buf && WroteThrough(old(Handles(disk, files, fds)), Handles(disk, files, fds), fd, done)
        && (r == |buf| || (r == -1 && done == [])) && (r == |buf| && buf != [] ==> done != [])
        && (done != buf ==> IsDenied(ExtentOf(fd), old(requests)))
      ensures forall s: nat ::
        s < |old(files)| && 0 <= fd < |old(fds)| && old(fds)[fd].write && old(fds)[fd].file == Some(s) &&
        old(fds)[fd].offset + |buf| + HDR_SIZE <= old(files)[s].maxPages * PAGE_SIZE ==>
        if !old(files)[s].modified && old(fds)[fd].offset == old(files)[s].end then r == |buf| && done == buf
        else LogEnded(old(WriteOf(fd, |buf|)), |done|, logs) && WriteReported(r, |buf|, |done|)
      ensures old(LogsInside(fd, |buf|)) && Ample(old(WriteOf(fd, |buf|))) ==> r == |buf| && done == buf
      ensures old(LogsInside(fd, |buf|)) && OneLog(old(WriteOf(fd, |buf|))) && r == |buf| ==> done == buf
      ensures old(FdValid(fd)) && old(fds)[fd].write && !old(HasRoom(fd, |buf|)) && r == |buf| && done != buf ==>
        LogEnded(old(WriteOf(fd, |buf|)).(free := 0), |done|, logs)
      ensures old(FdValid(fd)) && old(fds)[fd].write && !old(HasRoom(fd, |buf|)) && r == |buf| ==>
        old(fds)[fd].offset == |old(Handles(disk, files, fds)[fd].view)| ==> done == buf
    {
      if !(0 <= fd < |fds| && !fds[fd].Free() && fds[fd].write) {
        return -1, [], 0;
      }
      OpenFile(disk, files, fds, fd);
      r, done, logs := WriteOpen(fd, buf);
    }

    /** `cfs_write` for a descriptor that may write. */
    method WriteOpen(fd: nat, buf: seq<Byte>) returns (r: int, ghost done: seq<Byte>, ghost logs: nat)
      requires Valid(disk, files, fds) && fd < |fds| && !fds[fd].Free() && fds[fd].write
      modifies this
      ensures Valid(disk, files, fds) && done <= buf
      ensures WroteThrough(old(Handles(disk, files, fds)), Handles(disk, files, fds), fd, done)
      ensures (r == |buf| || (r == -1 && done == [])) && (r == |buf| && buf != [] ==> done != [])
      ensures done != buf ==> IsDenied(ExtentOf(fd), old(requests))
      ensures old(AppendsInside(fd, |buf|)) ==> r == |buf| && done == buf
      ensures old(LogsInside(fd, |buf|)) ==>
        LogEnded(old(WriteOf(fd, |buf|)), |done|, logs) && WriteReported(r, |buf|, |done|)
      ensures old(LogsInside(fd, |buf|)) && Ample(old(WriteOf(fd, |buf|))) ==> r == |buf| && done == buf
      ensures old(LogsInside(fd, |buf|)) && OneLog(old(WriteOf(fd, |buf|))) && r == |buf| ==> done == buf
      ensures !old(HasRoom(fd, |buf|)) && r == |buf| && done != buf ==>
        LogEnded(old(WriteOf(fd, |buf|)).(free := 0), |done|, logs)
      ensures !old(HasRoom(fd, |buf|)) && r == |buf| ==>
        old(fds)[fd].offset == |old(Handles(disk, files, fds)[fd].view)| ==> done == buf
    {
      done, logs := [], 0;
      ghost var room, inside, w := HasRoom(fd, |buf|), LogsInside(fd, |buf|), WriteOf(fd, |buf|);
      WroteNothing(disk, files, fds, fd);
      var ok := MakeRoom(fd, |buf|);
      if !ok {
        return -1, done, logs;
      }
      OpenFile(disk, files, fds, fd);
      ghost var w' := WriteOf(fd, |buf|);
      r, done, logs := WriteBytes(fd, buf);
      if inside {
        EnoughWritten(w, |done|, logs, r);
      } else if !room && done != buf {
        WrittenAlike(w.e, w'.e, w.offset, w.n, 0, |done|, logs);
      }
    }

    /** A write within the extent of a file that goes through its log. */
    ghost predicate LogsInside(fd: int, size: nat) reads this {
      FdValid(fd) && fds[fd].write && HasRoom(fd, size) && !AppendsInside(fd, size)
    }

    /** An append to a file without a log that fits the extent. */
    ghost predicate AppendsInside(fd: nat, size: nat) reads this {
      && HasRoom(fd, size) && !files[fds[fd].file.value].modified
      && fds[fd].offset == files[fds[fd].file.value].end
    }

    /**
     `cfs_seek`. The limit is the size of all pages of the extent although the header takes some of it: the end of
     the file can be set behind its extent, exactly when the target is behind it.
     */
    method CfsSeek(fd: int, offset: int, whence: Whence) returns (r: int)
      requires Valid(disk, files, fds)
      modifies this`files, this`fds
      ensures r < 0 ==> r == -1 && files == old(files) && fds == old(fds)
      ensures r >= 0 ==> old(FdValid(fd)) && whence != OtherWhence
      ensures old(FdValid(fd)) && whence != OtherWhence ==>
        (r >= 0 <==>
          0 <= SeekTarget(old(Handles(disk, files, fds))[fd], offset,
          whence) <= Room(old(files)[old(fds)[fd].file.value].maxPages) + HDR_SIZE)
      ensures r >= 0 ==>
        && r == SeekTarget(old(Handles(disk, files, fds))[fd], offset, whence) && fd < |fds| && fds[fd].offset == r
        && (Valid(disk, files, fds) <==> r <= Room(old(files)[old(fds)[fd].file.value].maxPages))
      ensures r >= 0 && whence == SeekSet ==> r == offset
      ensures r >= 0 && whence == SeekEnd ==> r == |old(Handles(disk, files, fds))[fd].view| + offset
      ensures r >= 0 && whence == SeekCur ==> r == old(fds)[fd].offset + offset
      ensures r >= 0 && Valid(disk, files, fds) ==> forall k :: 0 <= k < |fds| == |old(fds)| ==>
        AfterSeek(old(Handles(disk, files, fds))[k], Handles(disk, files, fds)[k], old(Handles(disk, files, fds))[fd],
          k == fd, r)
    {
      if !(0 <= fd < |fds| && !fds[fd].Free()) {
        return -1;
      }
      OpenFile(disk, files, fds, fd);
      var s := fds[fd].file.value;
      if whence == SeekSet {
        r := offset;
      } else if whence == SeekEnd {
        r := files[s].end + offset;
      } else if whence == SeekCur {
        r := fds[fd].offset + offset;
      } else {
        return -1;
      }
      if r < 0 || r > files[s].maxPages * PAGE_SIZE {
        return -1;
      }
      ghost var files0, fds0 := files, fds;
      fds := fds[fd := fds[fd].(offset := r)];
      files := WithEnd(files, s, r);
      if r <= Room(files0[s].maxPages) {
        EndMoves(disk, files0, fds0, fd, s, r);
        HandlesSought(disk, files0, fds0, fd, s, r);
      } else {
        assert files[s].end == r;
        CoreMeans(disk, files, fds);
        assert !FdOk(disk, files, fds[fd]);
      }
    }
  }

  /** Any open descriptor can be moved behind the extent of its file, and the end of the file with it. */
  method SeekBehind(fs: Coffee, fd: int) returns (r: int)
    requires Valid(fs.disk, fs.files, fs.fds) && fs.FdValid(fd)
    modifies fs
    ensures r >= 0 && !Valid(fs.disk, fs.files, fs.fds)
  {
    OpenFile(fs.disk, fs.files, fs.fds, fd);
    r := fs.CfsSeek(fd, Room(fs.files[fs.fds[fd].file.value].maxPages) + 1, SeekSet);
  }
}
