/**
 Programming the flash over the serial line: the sender sends the image in records of sixteen bytes and sends a
 record again when it is rejected; the boot loader collects the data in a page buffer, and erases and writes the
 flash page by page.
 */
module Flashing {
  import opened Bytes
  import opened Wrappers
  import opened ImageCrc

  const PAGESIZE: nat := 256
  const BOOTLOADER_START: nat := 0xF000
  const FLASH_SIZE: nat := 0x10000
  const NO_ADDRESS: nat := 0xFFFF

  const ACK: Byte := 5
  const NAK: Byte := 6

  // ---------------------------------------------------------------- records

  function Sum(bytes: seq<Byte>): nat {
    if bytes == [] then 0 else Sum(bytes[..|bytes| - 1]) + bytes[|bytes| - 1]
  }

  /** `0xFF - checksum + 1` in eight bits. */
  function Checksum(bytes: seq<Byte>): Byte {
    (0xFF - Sum(bytes) % 256 + 1) % 256
  }

  /** A line of an Intel hex file in binary: the colon, length, address, type, data and checksum. */
  function Record(address: nat, kind: Byte, data: seq<Byte>): (line: seq<Byte>)
    requires address < 65536 && |data| < 256
    ensures |line| == 6 + |data|
  {
    var body := [|data|, address / 256, address % 256, kind] + data;
    [58] + body + [Checksum(body)]
  }

  /** A line that starts with a colon and has as many data bytes as it says. */
  predicate Framed(line: seq<Byte>) {
    |line| >= 6 && line[0] == 58 && line[1] == |line| - 6
  }

  predicate Intact(line: seq<Byte>)
    requires Framed(line)
  {
    line[|line| - 1] == Checksum(line[1..|line| - 1])
  }

  lemma RecordIntact(address: nat, kind: Byte, data: seq<Byte>)
    requires address < 65536 && |data| < 256
    ensures Framed(Record(address, kind, data)) && Intact(Record(address, kind, data))
  {
    var line := Record(address, kind, data);
    var body := [|data|, address / 256, address % 256, kind] + data;
    assert line[1..|line| - 1] == body;
  }

  lemma {:induction false} SumUpdate(bytes: seq<Byte>, i: nat, x: Byte)
    requires i < |bytes|
    ensures Sum(bytes[i := x]) == Sum(bytes) - bytes[i] + x
  {
    var n := |bytes| - 1;
    if i < n {
      SumUpdate(bytes[..n], i, x);
      assert bytes[i := x][..n] == bytes[..n][i := x];
    } else {
      assert bytes[i := x][..n] == bytes[..n];
    }
  }

  lemma {:induction false} SumJoin(a: seq<Byte>, b: seq<Byte>)
    ensures Sum(a + b) == Sum(a) + Sum(b)
    ensures |b| == 1 ==> Sum(b) == b[0]
  {
    if b == [] {
      assert a + b == a;
    } else {
      SumJoin(a, b[..|b| - 1]);
      assert (a + b)[..|a| + |b| - 1] == a + b[..|b| - 1];
    }
  }

  lemma SumToZero(s: nat, x: Byte)
    ensures (s + x) % 256 == 0 <==> x == (0xFF - s % 256 + 1) % 256
  {
  }

  /** As in the Intel hex format, the bytes behind the colon sum up to 0 modulo 256. */
  lemma IntactIff(line: seq<Byte>)
    requires Framed(line)
    ensures Intact(line) <==> Sum(line[1..]) % 256 == 0
  {
    var n := |line| - 1;
    assert line[1..] == line[1..n] + [line[n]];
    SumJoin(line[1..n], [line[n]]);
    SumToZero(Sum(line[1..n]), line[n]);
  }

  /** What a record holds: length, address with the high byte first, kind, data, and the sum. */
  lemma RecordIs(address: nat, kind: Byte, data: seq<Byte>)
    requires address < 65536 && |data| < 256
    ensures var line := Record(address, kind, data);
      && |line| == 6 + |data| && line[0] as int == ':' as int && line[1] == |data|
      && 256 * line[2] as nat + line[3] == address && line[4] == kind && line[5..5 + |data|] == data
      && Framed(line) && Sum(line[1..]) % 256 == 0
  {
    RecordIntact(address, kind, data);
    IntactIff(Record(address, kind, data));
  }

  lemma ChecksumDiffers(s: nat, t: nat, x: Byte, y: Byte)
    requires t == s - x + y && x != y
    ensures (0xFF - s % 256 + 1) % 256 != (0xFF - t % 256 + 1) % 256
  {
  }

  /** A record of which one byte is changed, other than the colon and the length, is rejected. */
  lemma OneByteDetected(line: seq<Byte>, i: nat, x: Byte)
    requires Framed(line) && Intact(line) && 2 <= i < |line| && x != line[i]
    ensures Framed(line[i := x]) && !Intact(line[i := x])
  {
    var n := |line| - 1;
    if i < n {
      SumUpdate(line[1..n], i - 1, x);
      ChecksumDiffers(Sum(line[1..n]), Sum(line[1..n][i - 1 := x]), line[i], x);
      assert line[i := x][1..n] == line[1..n][i - 1 := x];
    } else {
      assert line[i := x][1..n] == line[1..n];
    }
  }

  // ---------------------------------------------------------------- flash memory

  function Bit(n: nat, k: nat): bool {
    if k == 0 then n % 2 == 1 else Bit(n / 2, k - 1)
  }

  /** Writing to flash clears bits and sets none. */
  lemma {:induction false} AndBits(a: nat, b: nat, k: nat)
    ensures Bit(And(a, b), k) <==> Bit(a, k) && Bit(b, k)
    decreases k
  {
    if a == 0 || b == 0 {
      NoBits(k);
    } else if k > 0 {
      AndBits(a / 2, b / 2, k - 1);
    }
  }

  lemma {:induction false} NoBits(k: nat)
    ensures !Bit(0, k)
  {
    if k > 0 {
      NoBits(k - 1);
    }
  }

  /** Bitwise and: writing to flash can only clear bits. */
  function And(a: nat, b: nat): (r: nat)
    ensures r <= a && r <= b
    decreases a
  {
    if a == 0 || b == 0 then 0 else 2 * And(a / 2, b / 2) + if a % 2 == 1 && b % 2 == 1 then 1 else 0
  }

  function Ones(k: nat): nat {
    if k == 0 then 0 else 2 * Ones(k - 1) + 1
  }

  lemma {:induction false} AndOnes(k: nat, b: nat)
    requires b <= Ones(k)
    ensures And(Ones(k), b) == b && And(b, Ones(k)) == b
  {
    if k > 0 && b > 0 {
      AndOnes(k - 1, b / 2);
    }
  }

  /** A byte survives being written over an erased one, and over any byte if nothing is written. */
  lemma AndErased(b: Byte)
    ensures And(255, b) == b && And(b, 255) == b
  {
    assert Ones(4) == 15;
    assert Ones(8) == 16 * Ones(4) + 15;
    AndOnes(8, b);
  }

  // ---------------------------------------------------------------- what is on the flash

  /** The image and the flash as it was; `erased` says whether the first page was erased before it was written. */
  datatype Job = Job(before: seq<Byte>, image: seq<Byte>, min: nat, erased: bool)
  {
    ghost predicate Valid() {
      |before| == FLASH_SIZE == |image| && min < FLASH_SIZE
    }

    function FirstPage(): nat {
      min - min % PAGESIZE
    }

    /** What a byte of a page that is reached holds before it is written. */
    function Base(a: nat): Byte
      requires a < |before|
    {
      if a < FirstPage() + PAGESIZE && !erased then before[a] else 255
    }

    /** What is written to a byte when the data up to `c` has been received. */
    function Data(a: nat, c: nat): Byte
      requires a < |image|
    {
      if min <= a < c then image[a] else 255
    }

    /** A byte of the flash when the pages before `page` are written, `page` is open and data is received up to `c`. */
    function Now(a: nat, page: nat, c: nat): Byte
      requires a < |before| && a < |image|
    {
      if FirstPage() <= a < page then And(Base(a), Data(a, c))
      else if page <= a < page + PAGESIZE then Base(a)
      else before[a]
    }

    /** A byte of the flash when all data up to `max` has been received and written. */
    function Final(a: nat, max: nat): Byte
      requires a < |before| && a < |image|
    {
      if FirstPage() <= a < LastPage(max) + PAGESIZE then And(Base(a), Data(a, max)) else before[a]
    }

    function LastPage(max: nat): nat {
      if max == 0 then 0 else (max - 1) - (max - 1) % PAGESIZE
    }
  }

  lemma LastPageIs(job: Job, max: nat, page: nat)
    requires page % PAGESIZE == 0 && page < max <= page + PAGESIZE
    ensures job.LastPage(max) == page
  {
    PageOffset(page, max - 1);
  }

  function Address(line: seq<Byte>): nat
    requires |line| >= 6
  {
    var high: nat, low: nat := line[2], line[3];
    256 * high + low
  }

  /** The data of the line is the image at its address: even in number, at an even address below the boot loader. */
  ghost predicate CarriesImage(job: Job, line: seq<Byte>)
    requires Framed(line)
  {
    && |job.image| == FLASH_SIZE && line[1] % 2 == 0 && Address(line) % 2 == 0 &&
      Address(line) + line[1] <= BOOTLOADER_START
    && line[5..|line| - 1] == job.image[Address(line)..Address(line) + line[1]]
  }

  lemma PageOf(a: nat)
    ensures PAGESIZE * (a / PAGESIZE) == a - a % PAGESIZE && (a - a % PAGESIZE) % PAGESIZE == 0
    ensures a < FLASH_SIZE ==> a / PAGESIZE < 256 && a - a % PAGESIZE + PAGESIZE <= FLASH_SIZE
  {
  }

  lemma FullPage(page: nat, a: nat)
    requires page % PAGESIZE == 0 && a == page + PAGESIZE
    ensures PAGESIZE * (a / PAGESIZE) == a
  {
  }

  lemma PageOffset(page: nat, a: nat)
    requires page % PAGESIZE == 0 && page <= a < page + PAGESIZE
    ensures a % PAGESIZE == a - page
    ensures a % 2 == 0 ==> a - page + 1 < PAGESIZE
  {
    Offset(page / PAGESIZE, a - page);
  }

  lemma Offset(q: nat, r: nat)
    requires r < PAGESIZE
    ensures (PAGESIZE * q + r) % PAGESIZE == r
    ensures (PAGESIZE * q + r) % 2 == 0 ==> r + 1 < PAGESIZE
  {
    assert PAGESIZE * q + r == 2 * (128 * q) + r;
  }

  lemma EvenSum(a: nat, b: nat)
    requires a % 2 == 0 && b % 2 == 0
    ensures (a + b) % 2 == 0
  {
  }

  lemma ImageAt(image: seq<Byte>, at: nat, data: seq<Byte>, i: nat)
    requires at + |data| <= |image| && data == image[at..at + |data|] && i + 1 < |data|
    ensures data[i] == image[at + i] && data[i + 1] == image[at + i + 1]
  {
  }

  function Length(at: nat, max: nat): nat
    requires at <= max
  {
    if max - at < 16 then max - at else 16
  }

  /** The boot loader, with its flash and the temporary page buffer of the flash controller. */
  class Bootloader {
    const flash: array<Byte>
    const page: array<Byte>
    var startAddress: nat
    var pagePos: nat
    var crc: Register

    constructor (contents: seq<Byte>)
      requires |contents| == FLASH_SIZE
      ensures fresh(flash) && fresh(page) && flash.Length == FLASH_SIZE && page.Length == PAGESIZE
      ensures flash[..] == contents && Clear()
    {
      flash := new Byte[FLASH_SIZE](i requires 0 <= i < FLASH_SIZE => contents[i]);
      page := new Byte[PAGESIZE](_ => 255);
      startAddress, pagePos, crc := NO_ADDRESS, 0, ZERO;
      new;
      assert flash[..] == contents;
    }

    ghost predicate Sized() reads this {
      flash.Length == FLASH_SIZE && page.Length == PAGESIZE && flash != page && pagePos < 65536
    }

    /** Nothing is in the page buffer. */
    ghost predicate Clear() reads this, page {
      page.Length == PAGESIZE && forall i :: 0 <= i < PAGESIZE ==> page[i] == 255
    }

    /** `boot_erase_page` */
    method ErasePage(address: nat)
      requires Sized() && address + PAGESIZE <= FLASH_SIZE
      modifies flash, page
      ensures Clear() && forall a ::
        0 <= a < FLASH_SIZE ==> flash[a] == if address <= a < address + PAGESIZE then 255 else old(flash[a])
    {
      forall i | 0 <= i < PAGESIZE {
        page[i] := 255;
      }
      forall a | address <= a < address + PAGESIZE {
        flash[a] := 255;
      }
    }

    /** `boot_write_page`: the buffer is written over the page and is empty then. */
    method WritePage(address: nat)
      requires Sized() && address + PAGESIZE <= FLASH_SIZE
      modifies flash, page
      ensures Clear()
      ensures forall a :: 0 <= a < FLASH_SIZE ==>
        flash[a] == if address <= a < address + PAGESIZE then And(old(flash[a]), old(page[a - address]))
          else old(flash[a])
    {
      var i := 0;
      while i < PAGESIZE
        invariant 0 <= i <= PAGESIZE && page[..] == old(page[..])
        invariant forall a :: 0 <= a < FLASH_SIZE ==>
          flash[a] == if address <= a < address + i then And(old(flash[a]), old(page[a - address])) else old(flash[a])
      {
        flash[address + i] := And(flash[address + i], page[i]);
        i := i + 1;
      }
      forall j | 0 <= j < PAGESIZE {
        page[j] := 255;
      }
    }

    /** `boot_write_buffer`: a word goes to the place in the buffer that the low bits of the address name. */
    method FillBuffer(address: nat, low: Byte, high: Byte)
      requires Sized() && address % 2 == 0
      modifies page
      ensures page[..] == old(page[..])[address % PAGESIZE := low][address % PAGESIZE + 1 := high]
    {
      page[address % PAGESIZE] := low;
      page[address % PAGESIZE + 1] := high;
    }

    /** The data up to `c` has been received: the page of `startAddress` is open and those before it are written. */
    ghost predicate Holding(job: Job, c: nat)
      reads this, flash, page
    {
      && Sized() && job.Valid() && startAddress % PAGESIZE == 0 && startAddress + PAGESIZE <= FLASH_SIZE
      && job.FirstPage() <= startAddress <= c <= startAddress + PAGESIZE && job.min <= c
      && (forall i: nat :: i < PAGESIZE ==> page[i] == job.Data(startAddress + i, c))
      && (forall a: nat :: a < FLASH_SIZE ==> flash[a] == job.Now(a, startAddress, c))
    }

    /** Nothing has been received yet. */
    ghost predicate Idle(job: Job)
      reads this, flash, page
    {
      && Sized() && job.Valid() && Clear() && startAddress == NO_ADDRESS && flash[..] == job.before
    }

    /** The next data to be received is that from `c` on. */
    ghost predicate Expecting(job: Job, c: nat)
      reads this, flash, page
    {
      && |job.image| == FLASH_SIZE
      && if startAddress == NO_ADDRESS then Idle(job) && c == job.min && job.erased == (pagePos == 0)
        else Holding(job, c)
    }

    /** The open page is full, or the next data is behind it: it is written and the next one is erased. */
    method NextPage(ghost job: Job, next: nat)
      requires Holding(job, next) && next == startAddress + PAGESIZE && next + PAGESIZE <= FLASH_SIZE
      modifies this, flash, page
      ensures Holding(job, next) && startAddress == next && pagePos == 0
    {
      WritePage(startAddress);
      startAddress := next;
      pagePos := 0;
      ErasePage(startAddress);
    }

    /** The first part of handling data: the page of its address is opened if it is not open. */
    method OpenPage(ghost job: Job, currentAddress: nat)
      requires currentAddress < BOOTLOADER_START && Expecting(job, currentAddress)
      modifies this, flash, page
      ensures Holding(job, currentAddress) && currentAddress < startAddress + PAGESIZE
      ensures pagePos == currentAddress - startAddress
    {
      PageOf(currentAddress);
      if startAddress == NO_ADDRESS {
        var temp: Byte := currentAddress / PAGESIZE;
        startAddress := PAGESIZE * temp;
        if pagePos == 0 {
          ErasePage(startAddress);
        }
        assert forall a: nat :: a < FLASH_SIZE ==> old(flash[a]) == old(flash[..])[a];
      } else if startAddress > currentAddress || startAddress + PAGESIZE <= currentAddress {
        var temp: Byte := currentAddress / PAGESIZE;
        FullPage(startAddress, currentAddress);
        NextPage(job, PAGESIZE * temp);
      }
      pagePos := currentAddress - startAddress;
    }

    /** Two bytes of the image go to the page buffer. */
    method PutWord(ghost job: Job, x: nat, low: Byte, high: Byte)
      requires Holding(job, x) && x < startAddress + PAGESIZE && x % 2 == 0 && x + 1 < FLASH_SIZE
      requires low == job.image[x] && high == job.image[x + 1]
      modifies page
      ensures Holding(job, x + 2)
    {
      PageOffset(startAddress, x);
      FillBuffer(x, low, high);
      forall i: nat | i < PAGESIZE ensures page[i] == job.Data(startAddress + i, x + 2) {
        assert page[..][i] == page[i];
      }
    }

    /** One turn of the loop over the data of a record. */
    method WriteWord(ghost job: Job, x: nat, low: Byte, high: Byte)
      requires Holding(job, x) && pagePos == x - startAddress && x % 2 == 0 && x + 1 < BOOTLOADER_START
      requires low == job.image[x] && high == job.image[x + 1]
      modifies this, flash, page
      ensures Holding(job, x + 2) && pagePos == x + 2 - startAddress && startAddress < x + 2
    {
      if pagePos >= PAGESIZE {
        PageOf(x);
        NextPage(job, x);
      }
      PutWord(job, x, low, high);
      pagePos := pagePos + 2;
    }

    /** The data of a record is on the way up to `bufferPos`. */
    ghost predicate Writing(job: Job, currentAddress: nat, data: seq<Byte>, bufferPos: nat)
      reads this, flash, page
    {
      && |data| % 2 == 0 && bufferPos % 2 == 0 && currentAddress % 2 == 0 && bufferPos <= |data| < 256
      && currentAddress + |data| <= BOOTLOADER_START && |job.image| == FLASH_SIZE
      && data == job.image[currentAddress..currentAddress + |data|]
      && Holding(job, currentAddress + bufferPos) && pagePos == currentAddress + bufferPos - startAddress
      && (bufferPos > 0 ==> startAddress < currentAddress + bufferPos)
    }

    method WriteNext(ghost job: Job, currentAddress: nat, data: seq<Byte>, bufferPos: nat)
      requires Writing(job, currentAddress, data, bufferPos) && bufferPos < |data|
      modifies this, flash, page
      ensures Writing(job, currentAddress, data, bufferPos + 2)
    {
      var x := currentAddress + bufferPos;
      ImageAt(job.image, currentAddress, data, bufferPos);
      EvenSum(currentAddress, bufferPos);
      WriteWord(job, x, data[bufferPos], data[bufferPos + 1]);
    }

    /** The loop over the data of a record. */
    method WriteWords(ghost job: Job, currentAddress: nat, data: seq<Byte>)
      requires Writing(job, currentAddress, data, 0) && data != []
      modifies this, flash, page
      ensures Holding(job, currentAddress + |data|) && startAddress < currentAddress + |data|
    {
      var bufferPos := 0;
      while bufferPos < |data|
        invariant Writing(job, currentAddress, data, bufferPos)
      {
        WriteNext(job, currentAddress, data, bufferPos);
        bufferPos := bufferPos + 2;
      }
    }

    /** The data of one record goes to the page buffer, and to the flash whenever a page is full. */
    method WriteData(ghost job: Job, currentAddress: nat, data: seq<Byte>)
      requires |data| % 2 == 0 && 0 < |data| < 256 && currentAddress % 2 == 0
      requires currentAddress + |data| <= BOOTLOADER_START
      requires Expecting(job, currentAddress) && data == job.image[currentAddress..currentAddress + |data|]
      modifies this, flash, page
      ensures Holding(job, currentAddress + |data|) && startAddress < currentAddress + |data|
    {
      OpenPage(job, currentAddress);
      WriteWords(job, currentAddress, data);
    }

    /** The start of `ProgramFlash`. */
    method Start()
      modifies this
      ensures startAddress == NO_ADDRESS && pagePos == 0
    {
      startAddress, pagePos := NO_ADDRESS, 0;
    }

    /** The loop body of `ProgramFlash` for one line. */
    method ReceiveLine(ghost job: Job, line: seq<Byte>) returns (reply: Option<Byte>, nextLine: bool)
      requires Framed(line) && Sized()
      requires Intact(line) && line[1] > 0 ==> Expecting(job, Address(line)) && CarriesImage(job, line)
      modifies this, flash, page
      ensures Sized()
      ensures !Intact(line) ==> reply == Some(NAK) && nextLine && pagePos == (old(pagePos) + 65536 - line[1]) % 65536
      ensures Intact(line) && line[1] > 0 ==>
        reply == Some(ACK) && Holding(job, Address(line) + line[1]) && startAddress < Address(line) + line[1]
      ensures Intact(line) && line[1] == 0 ==> reply == None && pagePos == old(pagePos)
      ensures Intact(line) ==> (nextLine <==> line[4] != 1)
      ensures !Intact(line) || line[1] == 0 ==> startAddress == old(startAddress)
      ensures !Intact(line) || line[1] == 0 ==>
        (old(Idle(job)) ==> Idle(job)) && forall c: nat :: old(Holding(job, c)) ==> Holding(job, c)
    {
      nextLine, reply := true, None;
      var dataLength := line[1];
      var currentAddress := Address(line);
      var kind := line[4];
      var buffer := line[5..|line| - 1];
      if Checksum(line[1..|line| - 1]) == line[|line| - 1] {
        if kind == 1 {
          nextLine := false;
        }
        if dataLength > 0 {
          WriteData(job, currentAddress, buffer);
          reply := Some(ACK);
        }
      } else {
        reply := Some(NAK);
        pagePos := (pagePos + 65536 - dataLength) % 65536;
      }
    }

    /** The end of `ProgramFlash`: the last page is written and the CRC of the image is stored. */
    method Finish(ghost job: Job, ghost max: nat)
      requires Holding(job, max) && startAddress < max <= BOOTLOADER_START
      modifies this, flash, page
      ensures forall a: nat :: a < FLASH_SIZE ==> flash[a] == job.Final(a, max)
      ensures crc == Crc(flash[..BOOTLOADER_START])
    {
      LastPageIs(job, max, startAddress);
      WritePage(startAddress);
      crc := CalcCrc(flash[..BOOTLOADER_START]);
    }
  }

  // ---------------------------------------------------------------- the sender

  /** A line that the boot loader takes for a garbled copy of `line`. */
  predicate Garbles(line: seq<Byte>, g: seq<Byte>) {
    Framed(g) && |g| == |line| && !Intact(g)
  }

  /** What arrives when `line` is sent: the channel garbles lines as long as it has garbled copies for them. */
  function Delivered(line: seq<Byte>, channel: seq<seq<Byte>>): seq<Byte> {
    if channel != [] && Garbles(line, channel[0]) then channel[0] else line
  }

  function After(channel: seq<seq<Byte>>): seq<seq<Byte>> {
    if channel == [] then [] else channel[1..]
  }

  /** How often `line` is rejected before it gets through. */
  function Rejections(line: seq<Byte>, channel: seq<seq<Byte>>): nat {
    if channel != [] && Garbles(line, channel[0]) then 1 + Rejections(line, channel[1..]) else 0
  }

  function LineAt(memory: seq<Byte>, at: nat, max: nat): seq<Byte>
    requires at <= max <= |memory| && max < FLASH_SIZE
  {
    Record(at, 0, memory[at..at + Length(at, max)])
  }

  /** What the sending of the image from `at` on leaves of the channel. */
  function AfterImage(memory: seq<Byte>, at: nat, max: nat, channel: seq<seq<Byte>>): seq<seq<Byte>>
    requires max <= |memory| && max < FLASH_SIZE
    decreases max - at, |channel|
  {
    if at >= max then channel
    else if channel != [] && Garbles(LineAt(memory, at, max), channel[0]) then AfterImage(memory, at, max, channel[1..])
    else AfterImage(memory, at + Length(at, max), max, After(channel))
  }

  const END_LINE: seq<Byte> := [58, 0, 0, 0, 1, 0xFF]

  /** The number that `pagePos` has wrapped to is zero exactly if the lengths subtracted are a multiple of 65536. */
  predicate WrapsToZero(rejections: nat, length: nat) {
    rejections * length % 65536 == 0
  }

  lemma LineCarriesImage(job: Job, at: nat, max: nat)
    requires |job.image| == FLASH_SIZE && at < max <= BOOTLOADER_START && at % 2 == 0 && max % 2 == 0
    ensures var line := LineAt(job.image, at, max);
      Framed(line) && Intact(line) && line[1] == Length(at, max) > 0 && Address(line) == at && CarriesImage(job, line)
  {
    var data := job.image[at..at + Length(at, max)];
    RecordIntact(at, 0, data);
    var line := LineAt(job.image, at, max);
    assert line[5..|line| - 1] == data;
  }

  /** One more rejection of the first record. */
  lemma OneMoreRejection(k: nat, length: Byte, pagePos: nat)
    requires length > 0 && pagePos < 65536 && (pagePos + k * length) % 65536 == 0
    ensures (((pagePos + 65536 - length) % 65536) + (k + 1) * length) % 65536 == 0
  {
    var a: int, b: int := pagePos + 65536 - length, k * length;
    assert (k + 1) * length == b + length;
    assert a + (b + length) == (pagePos + b) + 65536;
  }

  lemma PagePosZero(k: nat, length: Byte, pagePos: nat)
    requires pagePos < 65536 && (pagePos + k * length) % 65536 == 0
    ensures pagePos == 0 <==> WrapsToZero(k, length)
  {
    var b := k * length;
  }

  /** After so many rejections of the first record: what that does to the page position, and what the job says of it. */
  ghost predicate Pending(job: Job, max: nat, pagePos: nat, channel: seq<seq<Byte>>, rejected: nat)
    requires job.min <= max <= |job.image| && max < FLASH_SIZE
  {
    && pagePos < 65536 && (pagePos + rejected * Length(job.min, max)) % 65536 == 0
    && job.erased ==
       WrapsToZero(rejected + Rejections(LineAt(job.image, job.min, max), channel), Length(job.min, max))
  }

  lemma PendingNext(job: Job, max: nat, pagePos: nat, channel: seq<seq<Byte>>, rejected: nat)
    requires job.min < max <= |job.image| && max < FLASH_SIZE && Pending(job, max, pagePos, channel, rejected)
    requires channel != [] && Garbles(LineAt(job.image, job.min, max), channel[0])
    ensures Pending(job, max, (pagePos + 65536 - Length(job.min, max)) % 65536, After(channel), rejected + 1)
  {
    OneMoreRejection(rejected, Length(job.min, max), pagePos);
  }

  /** What the run has come to when the data up to `at` got through. */
  ghost predicate Reached(dev: Bootloader, job: Job, at: nat, max: nat, channel: seq<seq<Byte>>, rejected: nat)
    reads dev, dev.flash, dev.page
  {
    && dev.Sized() && job.min <= at <= max <= BOOTLOADER_START && job.Valid() && job.min % 2 == 0 && at % 2 == 0 &&
      max % 2 == 0 && job.min < max
    && if at == job.min then dev.Idle(job) && Pending(job, max, dev.pagePos, channel, rejected)
       else dev.Holding(job, at) && dev.startAddress < at
  }

  /** A record that gets through is acknowledged. */
  method Accepted(dev: Bootloader, ghost job: Job, at: nat, max: nat, line: seq<Byte>, ghost channel: seq<seq<Byte>>,
        ghost rejected: nat) returns (reply: Option<Byte>)
    requires Reached(dev, job, at, max, channel, rejected) && at < max && line == LineAt(job.image, at, max)
    requires !(channel != [] && Garbles(line, channel[0]))
    modifies dev, dev.flash, dev.page
    ensures reply == Some(ACK) && Reached(dev, job, at + Length(at, max), max, After(channel), rejected)
  {
    LineCarriesImage(job, at, max);
    LengthEven(at, max);
    NextExpected(dev, job, at, max, line, channel, rejected);
    var nextLine;
    reply, nextLine := dev.ReceiveLine(job, line);
  }

  /** A garbled record is rejected: the page position changes, and nothing else that matters. */
  method Reject(dev: Bootloader, ghost job: Job, g: seq<Byte>) returns (reply: Option<Byte>)
    requires Framed(g) && !Intact(g) && dev.Sized()
    modifies dev, dev.flash, dev.page
    ensures reply == Some(NAK) && dev.Sized() && dev.startAddress == old(dev.startAddress)
    ensures dev.pagePos == (old(dev.pagePos) + 65536 - g[1]) % 65536
    ensures old(dev.Idle(job)) ==> dev.Idle(job)
    ensures forall c: nat :: old(dev.Holding(job, c)) ==> dev.Holding(job, c)
  {
    var nextLine;
    reply, nextLine := dev.ReceiveLine(job, g);
  }

  /** A garbled record is rejected and will be sent again. */
  method Rejected(dev: Bootloader, ghost job: Job, at: nat, max: nat, line: seq<Byte>, g: seq<Byte>,
        ghost channel: seq<seq<Byte>>, ghost rejected: nat) returns (reply: Option<Byte>)
    requires Reached(dev, job, at, max, channel, rejected) && at < max && line == LineAt(job.image, at, max)
    requires channel != [] && g == channel[0] && Garbles(line, g)
    modifies dev, dev.flash, dev.page
    ensures reply == Some(NAK)
    ensures Reached(dev, job, at, max, After(channel), if at == job.min then rejected + 1 else rejected)
  {
    GarbledLength(job, at, max, line, g);
    ghost var pagePos := dev.pagePos;
    reply := Reject(dev, job, g);
    if at == job.min {
      PendingNext(job, max, pagePos, channel, rejected);
    }
  }

  lemma GarbledLength(job: Job, at: nat, max: nat, line: seq<Byte>, g: seq<Byte>)
    requires |job.image| == FLASH_SIZE && at < max <= BOOTLOADER_START && at % 2 == 0 && max % 2 == 0
    requires line == LineAt(job.image, at, max) && Garbles(line, g)
    ensures Framed(g) && !Intact(g) && g[1] == Length(at, max)
  {
    LineCarriesImage(job, at, max);
  }

  /** The answer of the boot loader to one record, sent over the channel. */
  method SendRecord(dev: Bootloader, ghost job: Job, at: nat, max: nat, line: seq<Byte>, channel: seq<seq<Byte>>,
        ghost rejected: nat) returns (reply: Byte, ghost rejected': nat)
    requires Reached(dev, job, at, max, channel, rejected) && at < max && line == LineAt(job.image, at, max)
    modifies dev, dev.flash, dev.page
    ensures reply == if channel != [] && Garbles(line, channel[0]) then NAK else ACK
    ensures Reached(dev, job, if reply == ACK then at + Length(at, max) else at, max, After(channel), rejected')
  {
    rejected' := rejected;
    var answer;
    if channel != [] && Garbles(line, channel[0]) {
      answer := Rejected(dev, job, at, max, line, channel[0], channel, rejected);
      if at == job.min {
        rejected' := rejected + 1;
      }
    } else {
      answer := Accepted(dev, job, at, max, line, channel, rejected);
    }
    reply := answer.value;
  }

  lemma LengthEven(at: nat, max: nat)
    requires at < max && at % 2 == 0 && max % 2 == 0
    ensures (at + Length(at, max)) % 2 == 0 && at < at + Length(at, max) <= max
  {
  }

  lemma NextExpected(dev: Bootloader, job: Job, at: nat, max: nat, line: seq<Byte>, channel: seq<seq<Byte>>,
        rejected: nat)
    requires Reached(dev, job, at, max, channel, rejected) && at < max && line == LineAt(job.image, at, max)
    requires !(channel != [] && Garbles(line, channel[0]))
    ensures dev.Expecting(job, at)
  {
    if at == job.min {
      PagePosZero(rejected, Length(job.min, max), dev.pagePos);
    }
  }

  /** The sending loop of `programRS232`: a record is sent until it is acknowledged. */
  method SendImage(dev: Bootloader, ghost job: Job, memory: seq<Byte>, minaddr: nat, maxaddr: nat,
        channel: seq<seq<Byte>>) returns (rest: seq<seq<Byte>>)
    requires memory == job.image && minaddr == job.min && minaddr < maxaddr
    requires Reached(dev, job, minaddr, maxaddr, channel, 0)
    modifies dev, dev.flash, dev.page
    ensures dev.Holding(job, maxaddr) && dev.startAddress < maxaddr
    ensures rest == AfterImage(memory, minaddr, maxaddr, channel)
  {
    rest := channel;
    ghost var rejected := 0;
    var currentaddr := minaddr;
    while currentaddr < maxaddr
      invariant minaddr <= currentaddr <= maxaddr && Reached(dev, job, currentaddr, maxaddr, rest, rejected)
      invariant AfterImage(memory, currentaddr, maxaddr, rest) == AfterImage(memory, minaddr, maxaddr, channel)
      decreases maxaddr - currentaddr, |rest|
    {
      var reply;
      reply, rejected := SendRecord(dev, job, currentaddr, maxaddr, LineAt(memory, currentaddr, maxaddr), rest,
        rejected);
      rest := After(rest);
      if reply == ACK {
        currentaddr := currentaddr + Length(currentaddr, maxaddr);
      }
    }
  }

  /** The job of a run: the first page is erased if its first record gets through at once or after enough rejections. */
  function JobOf(before: seq<Byte>, memory: seq<Byte>, minaddr: nat, maxaddr: nat, channel: seq<seq<Byte>>): Job
    requires minaddr < maxaddr <= |memory| && maxaddr < FLASH_SIZE
  {
    Job(before, memory, minaddr,
      WrapsToZero(Rejections(LineAt(memory, minaddr, maxaddr), channel), Length(minaddr, maxaddr)))
  }

  /** All records get through in the end, and then the last line gets through at once. */
  predicate Succeeds(memory: seq<Byte>, minaddr: nat, maxaddr: nat, channel: seq<seq<Byte>>)
    requires maxaddr <= |memory| && maxaddr < FLASH_SIZE
  {
    minaddr < maxaddr &&
    var rest := AfterImage(memory, minaddr, maxaddr, channel);
    !(rest != [] && Garbles(END_LINE, rest[0]))
  }

  /** The flash after a job. */
  ghost function Flashed(job: Job, max: nat): (flash: seq<Byte>)
    requires job.Valid()
    ensures |flash| == FLASH_SIZE && forall a: nat :: a < FLASH_SIZE ==> flash[a] == job.Final(a, max)
  {
    seq(FLASH_SIZE, a requires 0 <= a < FLASH_SIZE => job.Final(a, max))
  }

  /**
   `programRS232` and `ProgramFlash` together. The sender reports success exactly if what the records leave of the
   channel lets the last line through; then the flash holds exactly what the job says, in every byte, and the CRC
   stored is that of the flash.
   */
  method ProgramFlash(dev: Bootloader, memory: seq<Byte>, minaddr: nat, maxaddr: nat, channel: seq<seq<Byte>>)
    returns (r: int)
    requires dev.Sized() && dev.Clear() && |memory| == FLASH_SIZE && minaddr % 2 == 0 && maxaddr % 2 == 0
    requires maxaddr <= BOOTLOADER_START
    modifies dev, dev.flash, dev.page
    ensures r == 1 <==> Succeeds(memory, minaddr, maxaddr, channel)
    ensures r == 1 || r == -1
    ensures r == 1 ==>
      && minaddr < maxaddr &&
        dev.flash[..] == Flashed(JobOf(old(dev.flash[..]), memory, minaddr, maxaddr, channel), maxaddr)
      && dev.crc == Crc(dev.flash[..BOOTLOADER_START])
  {
    if maxaddr <= minaddr {
      return -1;
    }
    ghost var job := JobOf(dev.flash[..], memory, minaddr, maxaddr, channel);
    dev.Start();
    var rest := SendImage(dev, job, memory, minaddr, maxaddr, channel);
    EndLineIntact();
    var reply, nextLine := dev.ReceiveLine(job, Delivered(END_LINE, rest));
    if nextLine {
      return -1;
    }
    dev.Finish(job, maxaddr);
    assert dev.flash[..] == Flashed(job, maxaddr);
    r := 1;
  }

  lemma EndLineIntact()
    ensures Framed(END_LINE) && Intact(END_LINE)
  {
    var zero := [0];
    assert zero[..0] == [];
    var two := [0, 0];
    assert two[..1] == zero;
    var three := [0, 0, 0];
    assert three[..2] == two;
    var body := END_LINE[1..5];
    assert body == [0, 0, 0, 1] && body[..3] == three;
    assert Sum(three) == 0;
  }

  // ---------------------------------------------------------------- what was flashed

  /** The flash holds the image exactly if the first page was erased, or its old contents do not get in the way. */
  lemma ImageFlashed(job: Job, max: nat)
    requires job.Valid() && job.min < max <= BOOTLOADER_START
    ensures (forall a: nat :: job.min <= a < max ==> job.Final(a, max) == job.image[a]) <==>
      job.erased || forall a: nat ::
        job.min <= a < max && a < job.FirstPage() + PAGESIZE ==> And(job.before[a], job.image[a]) == job.image[a]
  {
    forall a: nat | job.min <= a < max
      ensures job.Final(a, max) == if a < job.FirstPage() + PAGESIZE && !job.erased then
        And(job.before[a], job.image[a]) else job.image[a]
    {
      PageOf(max - 1);
      AndErased(job.image[a]);
    }
  }

  /** With the first page erased the flash holds the image, and all else of its pages is erased. */
  lemma ErasedFinal(job: Job, max: nat, a: nat)
    requires job.Valid() && job.erased && job.min < max <= BOOTLOADER_START && a < FLASH_SIZE
    ensures job.Final(a, max) ==
      if job.min <= a < max then job.image[a]
      else if job.FirstPage() <= a < job.LastPage(max) + PAGESIZE then 255
      else job.before[a]
  {
    PageOf(max - 1);
    AndErased(255);
    AndErased(job.image[a]);
  }

  /** With the first record accepted at once, whatever is rejected later, the first page is erased. */
  lemma FirstAccepted(before: seq<Byte>, memory: seq<Byte>, minaddr: nat, maxaddr: nat, channel: seq<seq<Byte>>)
    requires minaddr < maxaddr <= |memory| && maxaddr < FLASH_SIZE
    requires Rejections(LineAt(memory, minaddr, maxaddr), channel) == 0
    ensures JobOf(before, memory, minaddr, maxaddr, channel).erased
  {
  }

  /** The image is on the flash, and elsewhere on its pages there are ones. */
  ghost predicate HasImage(flash: seq<Byte>, before: seq<Byte>, memory: seq<Byte>, minaddr: nat, maxaddr: nat) {
    && minaddr < maxaddr && |flash| == |before| == |memory| == FLASH_SIZE && maxaddr <= FLASH_SIZE
    && forall a: nat :: a < FLASH_SIZE ==>
      flash[a] ==
        if minaddr <= a < maxaddr then memory[a]
        else if minaddr - minaddr % PAGESIZE <= a < maxaddr - 1 - (maxaddr - 1) % PAGESIZE + PAGESIZE then 255
        else before[a]
  }

  /**
   With the first record accepted at once, whatever is rejected later, and the last line let through, success is
   reported and the flash holds the image.
   */
  method ProgramImage(dev: Bootloader, memory: seq<Byte>, minaddr: nat, maxaddr: nat, channel: seq<seq<Byte>>)
    returns (r: int)
    requires dev.Sized() && dev.Clear() && |memory| == FLASH_SIZE && minaddr % 2 == 0 && maxaddr % 2 == 0
    requires minaddr < maxaddr <= BOOTLOADER_START
    requires Rejections(LineAt(memory, minaddr, maxaddr), channel) == 0
    modifies dev, dev.flash, dev.page
    ensures r == if Succeeds(memory, minaddr, maxaddr, channel) then 1 else -1
    ensures r == 1 ==> HasImage(dev.flash[..], old(dev.flash[..]), memory, minaddr, maxaddr)
  {
    ghost var job := JobOf(dev.flash[..], memory, minaddr, maxaddr, channel);
    FirstAccepted(dev.flash[..], memory, minaddr, maxaddr, channel);
    r := ProgramFlash(dev, memory, minaddr, maxaddr, channel);
    forall a: nat | a < FLASH_SIZE {
      ErasedFinal(job, maxaddr, a);
    }
  }

  /** A rejected first record leaves the first page unerased: an image of ones over a flash of zeros is lost. */
  lemma FirstRejected()
    ensures var zeros, ones, line := seq(FLASH_SIZE, _ => 0), seq(FLASH_SIZE, _ => 255),
      LineAt(seq(FLASH_SIZE, _ => 255), 0, 16);
      exists g :: Garbles(line, g) && JobOf(zeros, ones, 0, 16, [g]).Final(0, 16) != ones[0]
  {
    var zeros, ones := seq(FLASH_SIZE, _ => 0), seq(FLASH_SIZE, _ => 255);
    var line := LineAt(ones, 0, 16);
    RecordIntact(0, 0, ones[0..16]);
    var g := line[21 := if line[21] == 0 then 1 else 0];
    OneByteDetected(line, 21, g[21]);
    assert Garbles(line, g);
    assert Rejections(line, [g]) == 1 by {
      assert Rejections(line, []) == 0;
    }
    assert !JobOf(zeros, ones, 0, 16, [g]).erased;
  }
}
