/** What the operations of eeprom.c are asked to do, as functions and predicates of the values they
    start from: when each succeeds and what it leaves in the flash. */
module Plan {
  import opened Bytes
  import opened Flash
  import opened Bitfile
  import opened Padding
  import opened Sidecar

  const ID_EEPROM_1M: byte := 0x10
  const ID_EEPROM_2M: byte := 0x11
  const ID_EEPROM_4M: byte := 0x12
  const ID_EEPROM_8M: byte := 0x13
  const ID_EEPROM_16M: byte := 0x14
  const ID_EEPROM_32M: byte := 0x15

  const BOOT_BLOCK_SIZE := 64
  const XILINX_FALLBACK_ADDRESS := 0x1_0000
  const EFINIX_FALLBACK_ADDRESS := 0x0

  /** File sizes and start addresses stay in the positive range of the program's int. */
  const INT_LIMIT := 0x8000_0000

  /** The '|' that marks a board taking more than one part. */
  const ANY_PART_MARK: byte := 0x7C

  /** The board's fields that the flash operations consult, with the boot block and the two
      functions taken as given. */
  datatype Setup = Setup(
    efinix: bool, fallback: bool, recover: bool, flashId: byte, part: seq<byte>, boot: seq<byte>,
    digest: seq<byte> -> Hash, text: TextHeader)

  predicate Known(id: byte) { ID_EEPROM_1M <= id <= ID_EEPROM_32M }

  function FlashSize(id: byte): nat {
    if id == ID_EEPROM_1M then 0x10_0000 / 8
    else if id == ID_EEPROM_2M then 0x20_0000 / 8
    else if id == ID_EEPROM_4M then 0x40_0000 / 8
    else if id == ID_EEPROM_8M then 0x80_0000 / 8
    else if id == ID_EEPROM_16M then 0x100_0000 / 8
    else if id == ID_EEPROM_32M then 0x200_0000 / 8
    else 0
  }

  lemma FlashSizes(id: byte)
    ensures FlashSize(id) <= 0x40_0000 && FlashSize(id) / PAGE_SIZE * PAGE_SIZE == FlashSize(id)
    ensures FlashSize(id) % SECTOR_SIZE == 0
    ensures FlashSize(id) != 0 <==> Known(id)
    ensures Known(id) ==> FlashSize(id) == 2 * UserSpace(id) && UserSpace(id) % SECTOR_SIZE == 0
  {
  }

  function UserSpace(id: byte): nat {
    if id == ID_EEPROM_1M then 0x1_0000
    else if id == ID_EEPROM_2M then 0x2_0000
    else if id == ID_EEPROM_4M then 0x4_0000
    else if id == ID_EEPROM_8M then 0x8_0000
    else if id == ID_EEPROM_16M then 0x10_0000
    else if id == ID_EEPROM_32M then 0x20_0000
    else 0x8_0000
  }

  /** esectors: the index of the last sector a file of the given size reaches. */
  function LastSector(fsize: nat): nat {
    if fsize == 0 then 0 else (fsize - 1) / SECTOR_SIZE
  }

  function MaxSectors(s: Setup, start: nat): nat {
    if s.efinix then UserSpace(s.flashId) / SECTOR_SIZE
    else if s.fallback then
      if start == XILINX_FALLBACK_ADDRESS then UserSpace(s.flashId) / SECTOR_SIZE - 1
      else UserSpace(s.flashId) / SECTOR_SIZE
    else FlashSize(s.flashId) / SECTOR_SIZE
  }

  /** Where anyio_dev_write_flash and the board's open function put an image. */
  function StartAddress(s: Setup, toFallback: bool): nat {
    if toFallback then if s.efinix then EFINIX_FALLBACK_ADDRESS else XILINX_FALLBACK_ADDRESS
    else if s.fallback then UserSpace(s.flashId) else 0
  }

  predicate PartOk(s: Setup, part: seq<byte>) { ANY_PART_MARK in s.part || part == s.part }

  // The boot block

  /** boot_block as the program starts with it. */
  const BOOT_BLOCK: seq<byte> := [
    0xFF, 0xFF, 0xFF, 0xFF, 0xFF, 0xFF, 0xFF, 0xFF, 0xFF, 0xFF, 0xAA, 0x99, 0x55, 0x66, 0x31, 0xE1,
    0xFF, 0xFF, 0x32, 0x61, 0x00, 0x00, 0x32, 0x81, 0x0B, 0x08, 0x32, 0xA1, 0x00, 0x00, 0x32, 0xC1,
    0x0B, 0x01, 0x30, 0xA1, 0x00, 0x00, 0x33, 0x01, 0x21, 0x00, 0x32, 0x01, 0x00, 0x1F, 0x30, 0xA1,
    0x00, 0x0E, 0x20, 0x00, 0x20, 0x00, 0x20, 0x00, 0x20, 0x00, 0x20, 0x00, 0x20, 0x00, 0x20, 0x00]

  const BOOT_JUMP := 25

  /** eeprom_prepare_boot_block */
  function Prepared(id: byte, boot: seq<byte>): (b: seq<byte>)
    requires |boot| == BOOT_BLOCK_SIZE
    ensures |b| == BOOT_BLOCK_SIZE
  {
    if id == ID_EEPROM_1M then boot[BOOT_JUMP := 0x01]
    else if id == ID_EEPROM_2M then boot[BOOT_JUMP := 0x02]
    else if id == ID_EEPROM_4M then boot[BOOT_JUMP := 0x04]
    else if id == ID_EEPROM_8M then boot[BOOT_JUMP := 0x08]
    else if id == ID_EEPROM_16M then boot[BOOT_JUMP := 0x10]
    else if id == ID_EEPROM_32M then boot[BOOT_JUMP := 0x20]
    else boot
  }

  /** The address the boot block jumps to: the low word behind the instruction 0x3261 and the low
      byte of the word behind 0x3281, whose high byte is the flash read command. */
  function JumpAddress(boot: seq<byte>): nat
    requires |boot| == BOOT_BLOCK_SIZE
  {
    (boot[BOOT_JUMP] as int) * 0x1_0000 + (boot[20] as int) * 0x100 + boot[21]
  }

  /** The prepared boot block jumps to where a user image is written, for every part and also for
      an unknown one. */
  lemma BootBlockJumpsToUserImage(s: Setup)
    requires s.fallback
    ensures JumpAddress(Prepared(s.flashId, BOOT_BLOCK)) == UserSpace(s.flashId) == StartAddress(s, false)
  {
    assert BOOT_BLOCK[20] == 0x00;
    assert BOOT_BLOCK[21] == 0x00;
    assert BOOT_BLOCK[BOOT_JUMP] == 0x08;
  }

  predicate BootChecked(s: Setup) { s.fallback && !s.efinix }

  predicate BootOk(s: Setup, f: seq<byte>)
    requires |f| > 0
  {
    ReadAt(f, 0, PAGE_SIZE)[..BOOT_BLOCK_SIZE] == s.boot
  }

  /** The page write_boot programs: the boot block and zeros. */
  function BootPage(s: Setup): (page: seq<byte>)
    requires |s.boot| == BOOT_BLOCK_SIZE
    ensures |page| == PAGE_SIZE
  {
    s.boot + seq(PAGE_SIZE - BOOT_BLOCK_SIZE, _ => 0)
  }

  function WithBoot(s: Setup, f: seq<byte>): (f': seq<byte>)
    requires |f| > 0 && |s.boot| == BOOT_BLOCK_SIZE
    ensures |f'| == |f|
  {
    ProgramAt(EraseAt(f, 0), 0, BootPage(s))
  }

  predicate Repairs(s: Setup, f: seq<byte>, fixBoot: bool)
    requires |f| > 0
  {
    BootChecked(s) && !BootOk(s, f) && fixBoot
  }

  /** The flash after the boot check, and its repair if asked for. */
  function Booted(s: Setup, f: seq<byte>, fixBoot: bool): (f': seq<byte>)
    requires |f| > 0 && |s.boot| == BOOT_BLOCK_SIZE
    ensures |f'| == |f|
  {
    if Repairs(s, f, fixBoot) then WithBoot(s, f) else f
  }

  // eeprom_write

  /** What a call is given: the file, where to, the two flags, and the uninitialised stack. */
  datatype WriteCall = WriteCall(name: seq<byte>, start: nat, fixBoot: bool, sha256Check: bool, stack: Stack)

  /** C gives the call a meaning: names and sizes within int, header fields within their buffers. */
  predicate Defined(s: Setup, files: Files, name: seq<byte>, start: nat, stack: Stack) {
    && start < INT_LIMIT && StackFrame(stack)
    && (name in files ==> |files[name]| < INT_LIMIT && ParseHeader(files[name], stack, s.text) != Overrun)
  }

  function HeaderOf(s: Setup, files: Files, name: seq<byte>, stack: Stack): (h: Header)
    requires StackFrame(stack) && name in files
    ensures LeavesStream(h, files[name])
  {
    ParseHeader(files[name], stack, s.text)
  }

  /** The file is there, intact if that is to be checked, and for this board if that is. */
  predicate FileChecks(s: Setup, files: Files, name: seq<byte>, sha256Check: bool, checkPart: bool, stack: Stack)
    requires StackFrame(stack)
  {
    && (sha256Check ==> Matches(s.digest, files, name))
    && name in files
    && var h := HeaderOf(s, files, name, stack);
       h.Accepted? && (checkPart ==> PartOk(s, h.part))
  }

  predicate FileAccepted(s: Setup, files: Files, c: WriteCall)
    requires StackFrame(c.stack)
  {
    FileChecks(s, files, c.name, c.sha256Check, !s.recover, c.stack)
  }

  predicate WriteAccepted(s: Setup, files: Files, f: seq<byte>, c: WriteCall)
    requires StackFrame(c.stack) && |f| > 0 && |s.boot| == BOOT_BLOCK_SIZE
  {
    && FileAccepted(s, files, c)
    && (BootChecked(s) ==> BootOk(s, Booted(s, f, c.fixBoot)))
    && LastSector(|files[c.name]|) <= MaxSectors(s, c.start)
  }

  /** The configuration data: the file behind its header. */
  function Payload(s: Setup, files: Files, name: seq<byte>, stack: Stack): seq<byte>
    requires StackFrame(stack) && name in files && HeaderOf(s, files, name, stack).Accepted?
  {
    files[name][HeaderOf(s, files, name, stack).pos..]
  }

  /** file_buffer after the checks on the file: the checksum pass reads the file through it. */
  function HashedBuffer(files: Files, name: seq<byte>, sha256Check: bool, b: seq<byte>): (b': seq<byte>)
    requires |b| == SECTOR_SIZE
    ensures |b'| == |b|
  {
    if sha256Check && name in files then BufferAfter(files[name], b) else b
  }

  /** file_buffer after the boot check: a repair builds its page there. */
  function RepairedBuffer(s: Setup, f: seq<byte>, fixBoot: bool, b: seq<byte>): (b': seq<byte>)
    requires |f| > 0 && |s.boot| == BOOT_BLOCK_SIZE && |b| == SECTOR_SIZE
    ensures |b'| == |b|
  {
    if Repairs(s, f, fixBoot) then BootPage(s) + b[PAGE_SIZE..] else b
  }

  /** file_buffer when programming starts. */
  function StagedBuffer(s: Setup, files: Files, f: seq<byte>, c: WriteCall, b: seq<byte>): (b': seq<byte>)
    requires |f| > 0 && |s.boot| == BOOT_BLOCK_SIZE && |b| == SECTOR_SIZE
    ensures |b'| == |b|
  {
    RepairedBuffer(s, f, c.fixBoot, HashedBuffer(files, c.name, c.sha256Check, b))
  }

  /** The flash an accepted write leaves. */
  ghost function WriteResult(s: Setup, files: Files, f: seq<byte>, c: WriteCall, b: seq<byte>): (f': seq<byte>)
    requires StackFrame(c.stack) && |f| > 0 && |s.boot| == BOOT_BLOCK_SIZE && |b| == SECTOR_SIZE
    requires FileAccepted(s, files, c)
    ensures |f'| == |f|
  {
    var payload := Payload(s, files, c.name, c.stack);
    var image := Image(payload, StagedBuffer(s, files, f, c, b));
    var erased := EraseSectors(Booted(s, f, c.fixBoot), c.start, LastSector(|files[c.name]|) + 1);
    ProgramPages(erased, c.start, image, Pages(|payload|))
  }

  /** What a call of eeprom_write comes to: it returns 0 exactly when it is accepted, and then the
      flash holds its result; refused, it leaves the flash alone but for a boot block it has
      repaired. */
  ghost predicate WriteOutcome(s: Setup, files: Files, f: seq<byte>, c: WriteCall, b: seq<byte>,
                               r: int, f': seq<byte>, b': seq<byte>)
    requires StackFrame(c.stack) && |f| > 0 && |s.boot| == BOOT_BLOCK_SIZE && |b| == SECTOR_SIZE
  {
    if WriteAccepted(s, files, f, c) then
      && r == 0 && f' == WriteResult(s, files, f, c, b)
      && b' == BufferAfter(Payload(s, files, c.name, c.stack), StagedBuffer(s, files, f, c, b))
    else
      r == -1 && f' == if FileAccepted(s, files, c) then Booted(s, f, c.fixBoot) else f
  }

  lemma RefusedFile(s: Setup, files: Files, f: seq<byte>, c: WriteCall, b: seq<byte>, b': seq<byte>)
    requires StackFrame(c.stack) && |f| > 0 && |s.boot| == BOOT_BLOCK_SIZE && |b| == SECTOR_SIZE
    requires !FileAccepted(s, files, c)
    ensures WriteOutcome(s, files, f, c, b, -1, f, b')
  {
  }

  /** Past the checks on the file, the outcome follows from the boot check and the size. */
  lemma AcceptedFile(s: Setup, files: Files, f: seq<byte>, c: WriteCall, b: seq<byte>, b': seq<byte>)
    requires StackFrame(c.stack) && |f| > 0 && |s.boot| == BOOT_BLOCK_SIZE && |b| == SECTOR_SIZE
    requires FileAccepted(s, files, c)
    ensures var booted := Booted(s, f, c.fixBoot);
      var bootOk, room := BootChecked(s) ==> BootOk(s, booted), LastSector(|files[c.name]|) <= MaxSectors(s, c.start);
      && (!bootOk || !room ==> WriteOutcome(s, files, f, c, b, -1, booted, b'))
      && (bootOk && room ==>
            var p, staged := Payload(s, files, c.name, c.stack), StagedBuffer(s, files, f, c, b);
            var erased := EraseSectors(booted, c.start, LastSector(|files[c.name]|) + 1);
            WriteOutcome(s, files, f, c, b, 0, ProgramPages(erased, c.start, Image(p, staged), Pages(|p|)),
                         BufferAfter(p, staged)))
  {
    hide ProgramPages, EraseSectors, Image, BufferAfter, BootOk, Booted;
  }

  // eeprom_verify

  /** A file as large as the flash is taken for a dump of all of it. */
  predicate WholeFlash(s: Setup, files: Files, name: seq<byte>)
    requires name in files
  {
    |files[name]| == FlashSize(s.flashId)
  }

  /** The flash agrees with the first `n` bytes of `image` from `start` on. */
  predicate HoldsUpTo(f: seq<byte>, start: nat, image: seq<byte>, n: nat)
    requires |f| > 0 && n <= |image|
  {
    forall q | 0 <= q < n :: f[Wrap(start + q, |f|)] == image[q]
  }

  predicate FlashHolds(f: seq<byte>, start: nat, image: seq<byte>)
    requires |f| > 0
  {
    HoldsUpTo(f, start, image, |image|)
  }

  /** Where eeprom_verify found a difference, as it reports it. */
  datatype Report = NoError | ErrorAt(addr: nat, expected: byte, read: byte)

  /** The report names the first place where flash and image differ, and what is on either side. */
  predicate FirstDifference(f: seq<byte>, start: nat, image: seq<byte>, report: Report)
    requires |f| > 0
  {
    && report.ErrorAt? && start <= report.addr < start + |image|
    && HoldsUpTo(f, start, image, report.addr - start)
    && report.expected == image[report.addr - start]
    && report.read == f[Wrap(report.addr, |f|)]
    && report.expected != report.read
  }

  lemma DifferenceRefutes(f: seq<byte>, start: nat, image: seq<byte>, report: Report)
    requires |f| > 0 && FirstDifference(f, start, image, report)
    ensures !FlashHolds(f, start, image)
  {
    assert f[Wrap(start + (report.addr - start), |f|)] != image[report.addr - start];
  }

  lemma HoldsNothing(f: seq<byte>, start: nat, image: seq<byte>)
    requires |f| > 0
    ensures HoldsUpTo(f, start, image, 0)
  {
  }

  lemma HoldsAll(f: seq<byte>, start: nat, image: seq<byte>)
    requires |f| > 0
    ensures FlashHolds(f, start, image) <==> HoldsUpTo(f, start, image, |image|)
  {
  }

  /** Two pages that agree up to an offset. */
  predicate AgreeUpTo(x: seq<byte>, y: seq<byte>, n: nat)
    requires n <= |x| && n <= |y|
  {
    forall i | 0 <= i < n :: x[i] == y[i]
  }

  /** Comparing the next page of the image, or the part of it before a difference. */
  lemma HoldsNext(f: seq<byte>, start: nat, image: seq<byte>, at: nat, n: nat)
    requires |f| > 0 && n <= PAGE_SIZE && at + PAGE_SIZE <= |image| && HoldsUpTo(f, start, image, at)
    ensures HoldsUpTo(f, start, image, at + n) <==>
            AgreeUpTo(image[at..at + PAGE_SIZE], ReadAt(f, start + at, PAGE_SIZE), n)
  {
    var x, y := image[at..at + PAGE_SIZE], ReadAt(f, start + at, PAGE_SIZE);
    assert forall i | 0 <= i < n :: x[i] == image[at + i] && y[i] == f[Wrap(start + (at + i), |f|)];
    if AgreeUpTo(x, y, n) {
      forall q | 0 <= q < at + n
        ensures f[Wrap(start + q, |f|)] == image[q]
      {
        if q >= at {
          assert x[q - at] == y[q - at];
        }
      }
    }
  }

  /** The call has a meaning in C; a whole-flash file has no header to overrun anything. */
  predicate VerifyDefined(s: Setup, files: Files, name: seq<byte>, start: nat, stack: Stack) {
    && start < INT_LIMIT && StackFrame(stack)
    && (name in files ==>
          && |files[name]| < INT_LIMIT
          && (!WholeFlash(s, files, name) ==> ParseHeader(files[name], stack, s.text) != Overrun))
  }

  /** All checks before the comparison have passed. */
  predicate ReachesComparison(s: Setup, files: Files, f: seq<byte>, name: seq<byte>, stack: Stack)
    requires StackFrame(stack) && |f| > 0
  {
    && name in files
    && (!WholeFlash(s, files, name) ==>
          FileChecks(s, files, name, false, true, stack) && (BootChecked(s) ==> BootOk(s, f)))
  }

  /** What is compared, and from where on. */
  function Compared(s: Setup, files: Files, f: seq<byte>, name: seq<byte>, stack: Stack): seq<byte>
    requires StackFrame(stack) && |f| > 0 && ReachesComparison(s, files, f, name, stack)
  {
    if WholeFlash(s, files, name) then files[name] else Payload(s, files, name, stack)
  }

  function ComparedFrom(s: Setup, files: Files, name: seq<byte>, start: nat): nat
    requires name in files
  {
    if WholeFlash(s, files, name) then 0 else start
  }

  predicate VerifyAccepted(s: Setup, files: Files, f: seq<byte>, name: seq<byte>, start: nat, stack: Stack,
                           b: seq<byte>)
    requires StackFrame(stack) && |f| > 0 && |b| == SECTOR_SIZE
  {
    && ReachesComparison(s, files, f, name, stack)
    && FlashHolds(f, ComparedFrom(s, files, name, start), Image(Compared(s, files, f, name, stack), b))
  }

  /** What a call of eeprom_verify comes to. */
  ghost predicate VerifyOutcome(s: Setup, files: Files, f: seq<byte>, name: seq<byte>, start: nat, stack: Stack,
                                b: seq<byte>, r: int, report: Report, b': seq<byte>)
    requires StackFrame(stack) && |f| > 0 && |b| == SECTOR_SIZE
  {
    if VerifyAccepted(s, files, f, name, start, stack, b) then
      r == 0 && report == NoError && b' == BufferAfter(Compared(s, files, f, name, stack), b)
    else
      && r == -1
      && if ReachesComparison(s, files, f, name, stack) then
           FirstDifference(f, ComparedFrom(s, files, name, start), Image(Compared(s, files, f, name, stack), b), report)
         else report == NoError
  }

  // flash_backup and flash_restore

  /** The first `n` bytes read from the flash. */
  ghost function Dump(f: seq<byte>, n: nat): (d: seq<byte>)
    requires |f| > 0
    ensures |d| == n
  {
    ReadAt(f, 0, n)
  }

  lemma DumpNextPage(f: seq<byte>, n: nat)
    requires |f| > 0
    ensures Dump(f, n) + ReadAt(f, n, PAGE_SIZE) == Dump(f, n + PAGE_SIZE)
  {
  }

  function BackupFiles(s: Setup, files: Files, name: seq<byte>, f: seq<byte>): Files {
    files[name := f][name + EXTENSION := Line(s.digest(f), name)]
  }

  lemma BackupSteps(s: Setup, files: Files, name: seq<byte>, f: seq<byte>)
    ensures BackupFiles(s, files, name, f) == files[name := f][name + EXTENSION := Line(s.digest(f), name)]
  {
  }

  predicate RestoreAccepted(s: Setup, files: Files, name: seq<byte>) {
    && FlashSize(s.flashId) != 0
    && Matches(s.digest, files, name)
    && |files[name]| == FlashSize(s.flashId)
  }

  ghost function RestoreResult(s: Setup, f: seq<byte>, file: seq<byte>, b: seq<byte>): (f': seq<byte>)
    requires |f| > 0 && |b| == SECTOR_SIZE
    ensures |f'| == |f|
  {
    var erased := EraseSectors(f, 0, FlashSize(s.flashId) / SECTOR_SIZE);
    ProgramPages(erased, 0, Image(file, BufferAfter(file, b)), Pages(|file|))
  }
}
