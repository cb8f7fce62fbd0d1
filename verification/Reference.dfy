/** What the operations of eeprom.c come to, said again in bytes and addresses: a second description
    beside that of Plan, on literal sizes and addresses and with none of Plan's definitions but the
    data types, proved to agree with it for every input. Parsing a header and scanning a number are
    those of their own modules. */
module Reference {
  import opened Bytes
  import opened Flash
  import opened Bitfile
  import opened Padding
  import opened Sidecar
  import opened Plan
  import opened WriteProperties
  import opened VerifyProperties

  // The parts

  function Doubled(n: nat, k: nat): nat { if k == 0 then n else 2 * Doubled(n, k - 1) }

  /** Ids 0x10 to 0x15 are parts of 1Mb to 32Mb, each twice the one before. */
  function FlashBytes(id: byte): nat { if 0x10 <= id <= 0x15 then Doubled(0x2_0000, id - 0x10) else 0 }

  function UserBytes(id: byte): nat { if 0x10 <= id <= 0x15 then Doubled(0x1_0000, id - 0x10) else 0x8_0000 }

  lemma PartSizes(id: byte)
    ensures Known(id) <==> 0x10 <= id <= 0x15
    ensures FlashSize(id) == FlashBytes(id) && UserSpace(id) == UserBytes(id)
  {
    assert forall n: nat :: Doubled(n, 0) == n;
    assert forall n: nat :: Doubled(n, 1) == 2 * n;
    assert forall n: nat :: Doubled(n, 2) == 2 * Doubled(n, 1);
    assert forall n: nat :: Doubled(n, 3) == 2 * Doubled(n, 2);
    assert forall n: nat :: Doubled(n, 4) == 2 * Doubled(n, 3);
    assert forall n: nat :: Doubled(n, 5) == 2 * Doubled(n, 4);
  }

  /** Where the images start. */
  lemma StartAddresses(s: Setup)
    ensures StartAddress(s, true) == if s.efinix then 0 else 0x1_0000
    ensures StartAddress(s, false) == if s.fallback then UserBytes(s.flashId) else 0
  {
    PartSizes(s.flashId);
  }

  // start_programming

  /** The largest file that passes: one sector more than the area, but no more than the area where the
      limit is that of the fallback area. */
  function SizeLimit(s: Setup, start: nat): nat {
    if s.efinix then UserBytes(s.flashId) + 0x1_0000
    else if !s.fallback then FlashBytes(s.flashId) + 0x1_0000
    else if start == 0x1_0000 then UserBytes(s.flashId) else UserBytes(s.flashId) + 0x1_0000
  }

  lemma GuardInBytes(s: Setup, start: nat, fsize: nat)
    ensures LastSector(fsize) <= MaxSectors(s, start) <==> fsize <= SizeLimit(s, start)
  {
    hide FlashBytes, UserBytes;
    PartSizes(s.flashId);
    FlashSizes(s.flashId);
    UserSectors(s.flashId);
  }

  lemma UserSectors(id: byte)
    ensures UserSpace(id) % 0x1_0000 == 0 && UserSpace(id) >= 0x1_0000
  {
  }

  /** Whether place q of a run is erased for a file: its sector is the first, or starts before the
      file ends. */
  predicate ErasedPlace(fsize: nat, q: nat) { q < 0x1_0000 || q / 0x1_0000 * 0x1_0000 < fsize }

  lemma PlacesErased(fsize: nat, q: nat)
    ensures q < ErasedFor(fsize) <==> ErasedPlace(fsize, q)
  {
  }

  /** The erase run of a file that passes, from a sector boundary. */
  lemma EraseInBytes(f: seq<byte>, start: nat, fsize: nat, i: nat)
    requires |f| % 0x1_0000 == 0 && start % 0x1_0000 == 0 && start < |f| && i < |f|
    ensures var q := if start <= i then i - start else |f| - start + i;
      EraseSectors(f, start, LastSector(fsize) + 1)[i] == if ErasedPlace(fsize, q) then 0xFF else f[i]
  {
    hide LastSector, EraseSectors;
    EraseSectorsExact(f, start, LastSector(fsize) + 1);
    PlacesErased(fsize, RunIndex(start, i, |f|));
  }

  // The boot sector

  /** Byte i after the boot check, and after the repair of a bad boot block if that is allowed. */
  function AfterBoot(s: Setup, f: seq<byte>, fixBoot: bool, i: nat): byte
    requires |f| >= 64 && i < |f| && |s.boot| == 64
  {
    if s.fallback && !s.efinix && fixBoot && f[..64] != s.boot && i < 0x1_0000 then
      if i < 64 then s.boot[i] else if i < 256 then 0 else 0xFF
    else f[i]
  }

  lemma BootInBytes(s: Setup, f: seq<byte>, fixBoot: bool, i: nat)
    requires Geometry(|f|) && i < |f| && |s.boot| == 64
    ensures Booted(s, f, fixBoot)[i] == AfterBoot(s, f, fixBoot, i)
  {
    hide BootOk, ProgramAt, EraseAt, And8;
    BootBlockBytes(s, f);
    WholeSectors(|f|);
    RepairBytes(s, f, i);
  }

  lemma RepairBytes(s: Setup, f: seq<byte>, i: nat)
    requires Geometry(|f|) && i < |f| && |s.boot| == 64
    ensures WithBoot(s, f)[i] ==
            if i < 64 then s.boot[i] else if i < 256 then 0 else if i < 0x1_0000 then 0xFF else f[i]
  {
    hide And;
    WholeSectors(|f|);
    PageMultiple(|f|);
    EraseBytes(f, 0, 0, 0, i);
    ProgramBytes(EraseAt(f, 0), 0, BootPage(s), 0, 0, i);
    if i < 256 {
      AndOnes(BootPage(s)[i]);
    }
  }

  /** The boot block a board is opened with jumps to where its user image starts, and is otherwise the
      program's. */
  lemma BootJump(id: byte, j: nat)
    requires j < 64
    ensures var b := Prepared(id, BOOT_BLOCK);
      && b[25] as int * 0x1_0000 + b[20] as int * 0x100 + b[21] as int == UserBytes(id)
      && (j != 25 ==> b[j] == BOOT_BLOCK[j])
  {
    PartSizes(id);
    assert BOOT_BLOCK[20] == 0x00 && BOOT_BLOCK[21] == 0x00 && BOOT_BLOCK[25] == 0x08;
  }

  // eeprom_write

  /** The checksum file beside a file: 64 characters that scan pair by pair as its hash. */
  predicate SidecarGood(digest: seq<byte> -> Hash, files: Files, name: seq<byte>) {
    var beside := name + [0x2E, 0x73, 0x68, 0x61, 0x32, 0x35, 0x36];
    && name in files && beside in files && |files[beside]| >= 64
    && forall j | 0 <= j < 32 :: ScanByte(files[beside][..64][2 * j..]) == Number(digest(files[name])[j])
  }

  /** The part name passes: it is the board's, or the board's has a '|' in it. */
  predicate PartPasses(s: Setup, part: seq<byte>) { 0x7C in s.part || part == s.part }

  /** The checks on the file pass. */
  predicate FileTaken(s: Setup, files: Files, name: seq<byte>, sha256Check: bool, checkPart: bool, stack: Stack)
    requires |stack.buff| == 256
  {
    && (sha256Check ==> SidecarGood(s.digest, files, name))
    && name in files
    && var h := ParseHeader(files[name], stack, s.text);
       h.Accepted? && (checkPart ==> PartPasses(s, h.part))
  }

  predicate WriteTaken(s: Setup, files: Files, f: seq<byte>, c: WriteCall)
    requires |c.stack.buff| == 256 && |f| >= 64
  {
    && FileTaken(s, files, c.name, c.sha256Check, !s.recover, c.stack)
    && (s.fallback && !s.efinix ==> f[..64] == s.boot || c.fixBoot)
    && |files[c.name]| <= SizeLimit(s, c.start)
  }

  lemma FileInBytes(s: Setup, files: Files, name: seq<byte>, sha256Check: bool, checkPart: bool, stack: Stack)
    requires |stack.buff| == 256
    ensures FileChecks(s, files, name, sha256Check, checkPart, stack) <==>
            FileTaken(s, files, name, sha256Check, checkPart, stack)
  {
    hide ParseHeader, Matches, ScanByte;
    MatchesBytes(s.digest, files, name);
  }

  lemma AcceptedInBytes(s: Setup, files: Files, f: seq<byte>, c: WriteCall)
    requires Geometry(|f|) && |s.boot| == 64 && |c.stack.buff| == 256
    ensures WriteAccepted(s, files, f, c) <==> WriteTaken(s, files, f, c)
  {
    hide FileChecks, SidecarGood, PartPasses, ParseHeader, BootOk, WithBoot, LastSector, MaxSectors, SizeLimit;
    FileInBytes(s, files, c.name, c.sha256Check, !s.recover, c.stack);
    BootBlockBytes(s, f);
    BootRepairHolds(s, f);
    if FileAccepted(s, files, c) {
      GuardInBytes(s, c.start, |files[c.name]|);
    }
  }

  /** What file_buffer holds at q when programming starts: the boot page if one was written, else what
      the checksum pass read there last, else what was there before. */
  function StagedByte(s: Setup, files: Files, f: seq<byte>, c: WriteCall, b: seq<byte>, q: nat): byte
    requires |f| >= 64 && |s.boot| == 64 && |b| == 0x1_0000 && q < 8192
  {
    if s.fallback && !s.efinix && c.fixBoot && f[..64] != s.boot && q < 256 then
      if q < 64 then s.boot[q] else 0
    else if c.sha256Check && c.name in files && q < |files[c.name]| then
      var file := files[c.name];
      file[q + (|file| - 1 - q) / 8192 * 8192]
    else b[q]
  }

  lemma StagedInBytes(s: Setup, files: Files, f: seq<byte>, c: WriteCall, b: seq<byte>, q: nat)
    requires |f| >= 256 && |s.boot| == 64 && |b| == 0x1_0000 && q < 8192
    ensures StagedBuffer(s, files, f, c, b)[q] == StagedByte(s, files, f, c, b, q)
  {
    hide BootOk;
    BootBlockBytes(s, f);
  }

  /** Byte q of what is programmed: the payload, then to the end of the page the byte 8192 back, or in
      the first 8192 what the buffer held. */
  function ImageByte(p: seq<byte>, q: nat, staged: byte): byte {
    if q < |p| then p[q] else if 8192 <= q < 8192 + |p| then p[q - 8192] else staged
  }

  function PageEnd(n: nat): nat { (n + 255) / 256 * 256 }

  /** Byte i of the flash after an accepted write: along the run from the start address on, round the
      end if need be, the image, then 0xFF in the sectors the file reaches into, then what was there. */
  function WrittenFlash(s: Setup, files: Files, f: seq<byte>, c: WriteCall, b: seq<byte>, i: nat): byte
    requires |c.stack.buff| == 256 && |f| >= 64 && |s.boot| == 64 && |b| == 0x1_0000 && c.start < |f| && i < |f|
    requires WriteTaken(s, files, f, c)
  {
    var file := files[c.name];
    var p := file[ParseHeader(file, c.stack, s.text).pos..];
    var q := if c.start <= i then i - c.start else |f| - c.start + i;
    var staged := if q < 8192 then StagedByte(s, files, f, c, b, q) else 0;
    if q + |f| < PageEnd(|p|) then And(ImageByte(p, q, staged), ImageByte(p, q + |f|, 0))
    else if q < PageEnd(|p|) then ImageByte(p, q, staged)
    else if ErasedPlace(|file|, q) then 0xFF
    else AfterBoot(s, f, c.fixBoot, i)
  }

  /** eeprom_write, for every call to a flash of known size from a sector boundary: when it returns 0,
      and every byte of the flash afterwards, accepted or refused. */
  lemma WriteInBytes(s: Setup, files: Files, f: seq<byte>, c: WriteCall, b: seq<byte>,
                     r: int, f': seq<byte>, b': seq<byte>, i: nat)
    requires |c.stack.buff| == 256 && |s.boot| == 64 && |b| == 0x1_0000
    requires 0x10 <= s.flashId <= 0x15 && |f| == FlashBytes(s.flashId) && c.start % 0x1_0000 == 0 && c.start < |f|
    requires |f| >= 64 && i < |f|
    requires WriteOutcome(s, files, f, c, b, r, f', b')
    ensures r == if WriteTaken(s, files, f, c) then 0 else -1
    ensures |f'| == |f|
    ensures f'[i] ==
      if WriteTaken(s, files, f, c) then WrittenFlash(s, files, f, c, b, i)
      else if FileTaken(s, files, c.name, c.sha256Check, !s.recover, c.stack) then AfterBoot(s, f, c.fixBoot, i)
      else f[i]
  {
    hide WriteAccepted, WriteTaken, FileChecks, FileTaken, WriteResult, BufferAfter, StagedBuffer, Booted, AfterBoot,
         WrittenFlash;
    PartSizes(s.flashId);
    KnownGeometry(s.flashId);
    AcceptedInBytes(s, files, f, c);
    FileInBytes(s, files, c.name, c.sha256Check, !s.recover, c.stack);
    BootInBytes(s, f, c.fixBoot, i);
    if WriteAccepted(s, files, f, c) {
      ResultInBytes(s, files, f, c, b, i);
    }
  }

  lemma ResultInBytes(s: Setup, files: Files, f: seq<byte>, c: WriteCall, b: seq<byte>, i: nat)
    requires |c.stack.buff| == 256 && |s.boot| == 64 && |b| == 0x1_0000
    requires Known(s.flashId) && |f| == FlashSize(s.flashId) && Geometry(|f|)
    requires c.start % 0x1_0000 == 0 && c.start < |f| && i < |f|
    requires WriteAccepted(s, files, f, c) && WriteTaken(s, files, f, c)
    ensures WriteResult(s, files, f, c, b)[i] == WrittenFlash(s, files, f, c, b, i)
  {
    hide WriteResult, WriteImage, StagedByte, And, Booted, AfterBoot, ErasedPlace, WriteTaken, FileTaken,
         ImageByte, PageEnd, ParseHeader, BootOk;
    var q := RunIndex(c.start, i, |f|);
    WriteLeaves(s, files, f, c, b);
    BootInBytes(s, f, c.fixBoot, i);
    PlacesErased(|files[c.name]|, q);
    ImageInBytes(s, files, f, c, b, q);
    ImageInBytes(s, files, f, c, b, q + |f|);
  }

  lemma ImageInBytes(s: Setup, files: Files, f: seq<byte>, c: WriteCall, b: seq<byte>, q: nat)
    requires |c.stack.buff| == 256 && |s.boot| == 64 && |b| == 0x1_0000 && |f| >= 256
    requires FileAccepted(s, files, c)
    ensures var p, image := Payload(s, files, c.name, c.stack), WriteImage(s, files, f, c, b);
      && |image| == PageEnd(|p|)
      && (q < |image| ==>
            image[q] == ImageByte(p, q, if q < 8192 then StagedByte(s, files, f, c, b, q) else 0))
  {
    hide ParseHeader, StagedBuffer, StagedByte, FileChecks;
    if q < 8192 {
      StagedInBytes(s, files, f, c, b, q);
    }
  }

  /** Where the sectors erased for a file end. */
  function RunEnd(start: nat, fsize: nat): nat {
    start + if fsize == 0 then 0x1_0000 else (fsize + 0xFFFF) / 0x1_0000 * 0x1_0000
  }

  /** The run ends within the flash, and address i is outside of it. */
  predicate Outside(start: nat, fsize: nat, size: nat, i: nat) {
    RunEnd(start, fsize) <= size && (i < start || RunEnd(start, fsize) <= i)
  }

  lemma RunEndErased(start: nat, fsize: nat, q: nat)
    ensures ErasedPlace(fsize, q) <==> start + q < RunEnd(start, fsize)
    ensures RunEnd(start, fsize) == ErasedEnd(start, fsize)
  {
    PlacesErased(fsize, q);
  }

  /** A good boot sector is left alone: with the boot block in place, an accepted write that ends within
      the flash changes no byte outside the sectors it erases, a refused one changes nothing, and the
      buffer programming starts with is the one the checksum pass left. Allowing a repair makes no
      difference. */
  lemma GoodBootKept(s: Setup, files: Files, f: seq<byte>, c: WriteCall, b: seq<byte>,
                     r: int, f': seq<byte>, b': seq<byte>)
    requires |c.stack.buff| == 256 && |s.boot| == 64 && |b| == 0x1_0000
    requires 0x10 <= s.flashId <= 0x15 && |f| == FlashBytes(s.flashId) && c.start % 0x1_0000 == 0 && c.start < |f|
    requires |f| >= 256 && f[..64] == s.boot
    requires WriteOutcome(s, files, f, c, b, r, f', b')
    ensures |f'| == |f| && (r != 0 ==> f' == f)
    ensures r == 0 ==> c.name in files
    ensures r == 0 ==> forall i | 0 <= i < |f| && Outside(c.start, |files[c.name]|, |f|, i) :: f'[i] == f[i]
    ensures StagedBuffer(s, files, f, c, b) ==
            if c.sha256Check && c.name in files then BufferAfter(files[c.name], b) else b
  {
    hide WriteOutcome, FileTaken, WriteTaken, BufferAfter, BootOk, ImageByte, ErasedPlace, WrittenFlash;
    forall i | 0 <= i < |f|
      ensures |f'| == |f| && (r != 0 ==> f'[i] == f[i])
      ensures r == 0 ==> c.name in files
      ensures r == 0 && Outside(c.start, |files[c.name]|, |f|, i) ==> f'[i] == f[i]
    {
      WriteInBytes(s, files, f, c, b, r, f', b', i);
      if r == 0 {
        FrameInBytes(s, files, f, c, b, i);
      }
    }
    WriteInBytes(s, files, f, c, b, r, f', b', 0);
    BootBlockBytes(s, f);
    if r == 0 {
      FrameInBytes(s, files, f, c, b, 0);
    }
  }

  lemma FrameInBytes(s: Setup, files: Files, f: seq<byte>, c: WriteCall, b: seq<byte>, i: nat)
    requires |c.stack.buff| == 256 && |s.boot| == 64 && |b| == 0x1_0000
    requires c.start % 0x1_0000 == 0 && c.start < |f| && |f| >= 64 && i < |f| && WriteTaken(s, files, f, c)
    ensures c.name in files
    ensures Outside(c.start, |files[c.name]|, |f|, i) ==>
            WrittenFlash(s, files, f, c, b, i) == AfterBoot(s, f, c.fixBoot, i)
  {
    hide StagedByte, ImageByte, AfterBoot, ParseHeader, And, ErasedPlace, SizeLimit;
    var file := files[c.name];
    var q := if c.start <= i then i - c.start else |f| - c.start + i;
    RunEndErased(c.start, |file|, q);
    PagesInRun(|file[ParseHeader(file, c.stack, s.text).pos..]|, |file|);
  }

  lemma PagesInRun(n: nat, fsize: nat)
    requires n <= fsize
    ensures PageEnd(n) <= RunEnd(0, fsize)
  {
  }

  // eeprom_verify

  /** The part of eeprom_verify before the comparison passes; a file as large as the flash has none. */
  predicate Reaches(s: Setup, files: Files, f: seq<byte>, name: seq<byte>, stack: Stack)
    requires |stack.buff| == 256 && |f| >= 64
  {
    && name in files
    && (|files[name]| != FlashBytes(s.flashId) ==>
          && FileTaken(s, files, name, false, true, stack)
          && (s.fallback && !s.efinix ==> f[..64] == s.boot))
  }

  /** What is compared: the whole file, or what is behind its header. */
  function Subject(s: Setup, files: Files, f: seq<byte>, name: seq<byte>, stack: Stack): seq<byte>
    requires |stack.buff| == 256 && |f| >= 64 && Reaches(s, files, f, name, stack)
  {
    if |files[name]| == FlashBytes(s.flashId) then files[name]
    else files[name][ParseHeader(files[name], stack, s.text).pos..]
  }

  /** Place q of the comparison agrees: the flash has the stream's byte there, or behind its end what the
      buffer still held. */
  predicate Agrees(f: seq<byte>, from: nat, p: seq<byte>, b: seq<byte>, q: nat)
    requires |f| > 0 && |b| == 0x1_0000
  {
    f[Wrap(from + q, |f|)] == ImageByte(p, q, if q < 8192 then b[q] else 0)
  }

  /** eeprom_verify, for every call on a flash of known size: 0 exactly when the checks pass and every
      place up to the end of the last page agrees; else the report names the first that does not,
      with what is on either side. */
  lemma VerifyInBytes(s: Setup, files: Files, f: seq<byte>, name: seq<byte>, start: nat, stack: Stack, b: seq<byte>,
                      r: int, report: Report, b': seq<byte>)
    requires |stack.buff| == 256 && |s.boot| == 64 && |b| == 0x1_0000 && |f| >= 256
    requires VerifyOutcome(s, files, f, name, start, stack, b, r, report, b')
    ensures !Reaches(s, files, f, name, stack) ==> r == -1 && report == NoError
    ensures Reaches(s, files, f, name, stack) ==>
      var p := Subject(s, files, f, name, stack);
      var from := if |files[name]| == FlashBytes(s.flashId) then 0 else start;
      if forall q | 0 <= q < PageEnd(|p|) :: Agrees(f, from, p, b, q) then r == 0 && report == NoError
      else
        && r == -1 && report.ErrorAt? && from <= report.addr < from + PageEnd(|p|)
        && var q := report.addr - from;
           && (forall k | 0 <= k < q :: Agrees(f, from, p, b, k)) && !Agrees(f, from, p, b, q)
           && report.expected == ImageByte(p, q, if q < 8192 then b[q] else 0)
           && report.read == f[Wrap(report.addr, |f|)]
  {
    hide FileChecks, FileTaken, ParseHeader, BootOk, BufferAfter, ImageByte, Image, Wrap, HoldsUpTo, FlashBytes;
    PartSizes(s.flashId);
    FileInBytes(s, files, name, false, true, stack);
    BootBlockBytes(s, f);
    if Reaches(s, files, f, name, stack) {
      var p := Subject(s, files, f, name, stack);
      var from := if |files[name]| == FlashBytes(s.flashId) then 0 else start;
      assert Compared(s, files, f, name, stack) == p && ComparedFrom(s, files, name, start) == from;
      ImageBytes(p, b);
      PlacesHeld(f, from, p, b, PageEnd(|p|));
      if r != 0 {
        assert !FlashHolds(f, from, Image(p, b));
        PlacesHeld(f, from, p, b, report.addr - from);
        Disagrees(f, from, p, b, report);
      }
    }
  }

  lemma PlacesHeld(f: seq<byte>, from: nat, p: seq<byte>, b: seq<byte>, n: nat)
    requires |f| > 0 && |b| == 0x1_0000 && n <= |Image(p, b)|
    ensures HoldsUpTo(f, from, Image(p, b), n) <==> forall q | 0 <= q < n :: Agrees(f, from, p, b, q)
  {
    hide Image, ImageByte, Wrap;
    ImageBytes(p, b);
    var image := Image(p, b);
    forall q | 0 <= q < n
      ensures Agrees(f, from, p, b, q) <==> f[Wrap(from + q, |f|)] == image[q]
    {
    }
  }

  lemma Disagrees(f: seq<byte>, from: nat, p: seq<byte>, b: seq<byte>, report: Report)
    requires |f| > 0 && |b| == 0x1_0000 && FirstDifference(f, from, Image(p, b), report)
    ensures var q := report.addr - from;
      && !Agrees(f, from, p, b, q)
      && report.expected == ImageByte(p, q, if q < 8192 then b[q] else 0)
      && report.read == f[Wrap(report.addr, |f|)]
  {
    hide Image, ImageByte, Wrap, HoldsUpTo;
    ImageBytes(p, b);
  }

  lemma ImageBytes(p: seq<byte>, b: seq<byte>)
    requires |b| == 0x1_0000
    ensures |Image(p, b)| == PageEnd(|p|)
    ensures forall q | 0 <= q < |Image(p, b)| :: Image(p, b)[q] == ImageByte(p, q, if q < 8192 then b[q] else 0)
  {
  }

  /** For a file as large as the flash that comes to: the flash equals the file. */
  lemma WholeFileAgrees(f: seq<byte>, file: seq<byte>, b: seq<byte>)
    requires |b| == 0x1_0000 && |f| == |file| > 0 && |f| % 256 == 0
    ensures (forall q | 0 <= q < PageEnd(|file|) :: Agrees(f, 0, file, b, q)) <==> f == file
  {
    assert PageEnd(|file|) == |file|;
    forall q | 0 <= q < |f|
      ensures Agrees(f, 0, file, b, q) <==> f[q] == file[q]
    {
      WrapSmall(q, |f|);
    }
  }

  // flash_backup, flash_restore and flash_erase

  /** The files a backup leaves: the flash under its name, and beside it the hex digits of its hash, " *./",
      the name behind its last slash and a line feed. */
  lemma BackupInBytes(s: Setup, files: Files, name: seq<byte>, f: seq<byte>)
    requires |f| == FlashBytes(s.flashId) > 0
    ensures BackupFiles(s, files, name, Dump(f, FlashSize(s.flashId))) ==
            files[name := f][name + [0x2E, 0x73, 0x68, 0x61, 0x32, 0x35, 0x36] :=
              Hex(s.digest(f)) + [0x20, 0x2A, 0x2E, 0x2F] + Basename(name) + [0x0A]]
  {
    PartSizes(s.flashId);
    DumpAll(f);
  }

  /** What flash_restore takes: a file of the flash's size with a good checksum file. */
  lemma RestoreInBytes(s: Setup, files: Files, name: seq<byte>)
    ensures RestoreAccepted(s, files, name) <==>
      && 0x10 <= s.flashId <= 0x15
      && SidecarGood(s.digest, files, name) && |files[name]| == FlashBytes(s.flashId)
  {
    hide Matches, ScanByte, FlashBytes, FlashSize;
    PartSizes(s.flashId);
    FlashSizes(s.flashId);
    MatchesBytes(s.digest, files, name);
  }

  /** A backup that was changed afterwards is restored exactly when its hash is still the same. */
  lemma DamagedBackup(s: Setup, files: Files, name: seq<byte>, f: seq<byte>, d: seq<byte>)
    requires |f| == |d| == FlashBytes(s.flashId) > 0
    ensures var saved := BackupFiles(s, files, name, Dump(f, FlashSize(s.flashId)));
      RestoreAccepted(s, saved[name := d], name) <==> s.digest(d) == s.digest(f)
  {
    hide Matches, Hex, FlashBytes, FlashSize;
    PartSizes(s.flashId);
    BackupInBytes(s, files, name, f);
    var saved := BackupFiles(s, files, name, Dump(f, FlashSize(s.flashId)))[name := d];
    assert |name + EXTENSION| != |name|;
    var rest := [0x20, 0x2A, 0x2E, 0x2F] + Basename(name) + [0x0A];
    assert saved[name + EXTENSION] == Hex(s.digest(f)) + rest;
    HexMatches(s.digest, saved, name, s.digest(f), rest);
  }

  /** flash_erase leaves nothing but 0xFF. */
  lemma EraseAllInBytes(s: Setup, f: seq<byte>, i: nat)
    requires |f| == FlashBytes(s.flashId) && i < |f|
    ensures EraseSectors(f, 0, FlashSize(s.flashId) / SECTOR_SIZE)[i] == 0xFF
  {
    PartSizes(s.flashId);
    FlashSizes(s.flashId);
    EraseSectorsExact(f, 0, |f| / SECTOR_SIZE);
  }
}
