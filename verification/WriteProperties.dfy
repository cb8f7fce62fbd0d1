/** What a successful eeprom_write means, for every flash, file and buffer it may start from. */
module WriteProperties {
  import opened Bytes
  import opened Flash
  import opened Stdio
  import opened Bitfile
  import opened Padding
  import opened Sidecar
  import opened Plan

  // Where a write may go

  /** The end of the area an image is meant for: the fallback image ends where the user image
      begins, the user image at the end of the flash. A board with one image has the whole flash, an
      Efinix board half of it. */
  function AreaEnd(s: Setup, toFallback: bool): nat {
    if (s.fallback && toFallback) || (s.efinix && !s.fallback) then UserSpace(s.flashId) else FlashSize(s.flashId)
  }

  /** How much is erased for a file, and one past the last address of it if the flash went on that
      far. */
  function ErasedFor(fsize: nat): nat { (LastSector(fsize) + 1) * SECTOR_SIZE }

  function ErasedEnd(start: nat, fsize: nat): nat { start + ErasedFor(fsize) }

  /** The two images of a board have different start addresses. */
  predicate DistinctImages(s: Setup) { StartAddress(s, true) != StartAddress(s, false) }

  /** How many sectors behind its area a file at the limit of start_programming reaches. The guard
      compares the index of the last sector with a number of sectors, which admits one. On a Xilinx
      board without fallback support --fallback moves the start up but not the limit, which admits
      another. Where both images start at one address, the user image is held to the limit of the
      empty fallback area, which takes one away. */
  function Excess(s: Setup, toFallback: bool): nat {
    if toFallback && !s.fallback && !s.efinix then 2
    else if !toFallback && s.fallback && !DistinctImages(s) then 0
    else 1
  }

  /** Sector accounting, for every board, either flag and every file size: how far the erased run
      reaches, when it stays in its area, and when a run that the guard lets pass stays in the
      flash. */
  lemma SectorAccounting(s: Setup, toFallback: bool, fsize: nat)
    requires Known(s.flashId)
    ensures var start, last, excess := StartAddress(s, toFallback), LastSector(fsize), Excess(s, toFallback);
      var max := MaxSectors(s, start);
      && ErasedEnd(start, fsize) == AreaEnd(s, toFallback) + (last + excess - max) * SECTOR_SIZE
      && (ErasedEnd(start, fsize) <= AreaEnd(s, toFallback) <==> last + excess <= max)
      && (last <= max ==>
            (ErasedEnd(start, fsize) <= FlashSize(s.flashId) <==>
             (s.fallback && toFallback) || (s.efinix && !s.fallback) || last + excess <= max))
  {
    FlashSizes(s.flashId);
    AreaOf(s, toFallback);
  }

  lemma AreaOf(s: Setup, toFallback: bool)
    requires Known(s.flashId)
    ensures var start := StartAddress(s, toFallback);
      start + (MaxSectors(s, start) + 1) * SECTOR_SIZE == AreaEnd(s, toFallback) + Excess(s, toFallback) * SECTOR_SIZE
  {
  }

  /** The images share a start address on exactly one kind of board, a Xilinx board with a 1Mb
      part; there the limit for a user image is that for the empty fallback area, 0. */
  lemma SharedStartAddress(s: Setup)
    requires Known(s.flashId) && s.fallback
    ensures !DistinctImages(s) <==> !s.efinix && s.flashId == ID_EEPROM_1M
    ensures !DistinctImages(s) ==> MaxSectors(s, StartAddress(s, false)) == 0
  {
  }

  /** An area never reaches into the other image or the boot sector, and lies in the flash. */
  lemma AreasDisjoint(s: Setup)
    requires Known(s.flashId) && s.fallback
    ensures AreaEnd(s, true) <= StartAddress(s, false) < AreaEnd(s, false) == FlashSize(s.flashId)
    ensures BootChecked(s) ==> SECTOR_SIZE <= StartAddress(s, true) && SECTOR_SIZE <= StartAddress(s, false)
    ensures StartAddress(s, true) % SECTOR_SIZE == 0 && StartAddress(s, false) % SECTOR_SIZE == 0
  {
    FlashSizes(s.flashId);
  }

  /** Where the guard fails: a run it lets pass that reaches behind its area erases the sector there,
      which is the first one of the user image or, round the end of the flash, sector 0. */
  lemma OverrunErases(s: Setup, toFallback: bool, fsize: nat, f: seq<byte>)
    requires Known(s.flashId) && |f| == FlashSize(s.flashId)
    requires LastSector(fsize) <= MaxSectors(s, StartAddress(s, toFallback)) < LastSector(fsize) + Excess(s, toFallback)
    ensures var victim := if AreaEnd(s, toFallback) == |f| then 0 else AreaEnd(s, toFallback);
      var erased := EraseSectors(f, StartAddress(s, toFallback), LastSector(fsize) + 1);
      victim + SECTOR_SIZE <= |f| && forall i | victim <= i < victim + SECTOR_SIZE :: erased[i] == 0xFF
  {
    FlashSizes(s.flashId);
    SectorAccounting(s, toFallback, fsize);
    EraseSectorsExact(f, StartAddress(s, toFallback), LastSector(fsize) + 1);
  }

  /** The second failing input: --fallback on a Xilinx board without fallback support. A file one
      sector below the limit goes round the end of the flash and erases sector 0, where that board's
      own image starts. */
  lemma FallbackWithoutSupport(s: Setup, fsize: nat, f: seq<byte>)
    requires Known(s.flashId) && |f| == FlashSize(s.flashId) && !s.efinix && !s.fallback
    requires LastSector(fsize) + 1 == MaxSectors(s, StartAddress(s, true))
    ensures ErasedEnd(StartAddress(s, true), fsize) == FlashSize(s.flashId) + SECTOR_SIZE
    ensures StartAddress(s, false) == 0
    ensures var erased := EraseSectors(f, StartAddress(s, true), LastSector(fsize) + 1);
      SECTOR_SIZE <= |f| && forall i | 0 <= i < SECTOR_SIZE :: erased[i] == 0xFF
  {
    FlashSizes(s.flashId);
    SectorAccounting(s, true, fsize);
    OverrunErases(s, true, fsize, f);
  }

  // The boot block

  /** A repair always succeeds: the page it programs into the erased sector reads back. */
  lemma BootRepairHolds(s: Setup, f: seq<byte>)
    requires Geometry(|f|) && |s.boot| == BOOT_BLOCK_SIZE
    ensures BootOk(s, WithBoot(s, f))
  {
    var erased, page := EraseAt(f, 0), BootPage(s);
    SectorWithin(0, |f|);
    ProgramAtAligned(erased, 0, page);
    forall i | 0 <= i < BOOT_BLOCK_SIZE
      ensures ReadAt(WithBoot(s, f), 0, PAGE_SIZE)[i] == s.boot[i]
    {
      AndOnes(page[i]);
      ReadPlace(WithBoot(s, f), 0, PAGE_SIZE, i);
    }
  }

  /** The boot check touches nothing but the boot sector, and with repair allowed it passes. */
  lemma BootedFrame(s: Setup, f: seq<byte>, fixBoot: bool)
    requires Geometry(|f|) && |s.boot| == BOOT_BLOCK_SIZE
    ensures forall i | SECTOR_SIZE <= i < |f| :: Booted(s, f, fixBoot)[i] == f[i]
    ensures !Repairs(s, f, fixBoot) ==> Booted(s, f, fixBoot) == f
    ensures BootChecked(s) && fixBoot ==> BootOk(s, Booted(s, f, fixBoot))
  {
    if Repairs(s, f, fixBoot) {
      SectorWithin(0, |f|);
      ProgramAtAligned(EraseAt(f, 0), 0, BootPage(s));
      BootRepairHolds(s, f);
    }
  }

  // The image

  /** What a write leaves at place `q` of its run: the image, then 0xFF in the rest of the sectors
      erased. Where the image comes round a second time, both of its bytes are ANDed. */
  function WrittenByte(was: byte, image: seq<byte>, erased: nat, q: nat, size: nat): byte {
    if q + size < |image| then And8(image[q], image[q + size])
    else if q < |image| then image[q]
    else if q < erased then 0xFF else was
  }

  /** Flash f' is `before` after a write of `image` from `start` on, into `erased` bytes erased. */
  ghost predicate Written(f': seq<byte>, before: seq<byte>, start: nat, erased: nat, image: seq<byte>) {
    && |f'| == |before| && start < |f'|
    && forall i | 0 <= i < |f'| ::
         f'[i] == WrittenByte(before[i], image, erased, RunIndex(start, i, |f'|), |f'|)
  }

  /** Erasing a run of sectors and programming pages into it. */
  lemma EraseThenProgram(f: seq<byte>, start: nat, sectors: nat, image: seq<byte>, n: nat)
    requires Geometry(|f|) && start % SECTOR_SIZE == 0 && start < |f|
    requires |image| == n * PAGE_SIZE <= sectors * SECTOR_SIZE && |image| <= 2 * |f|
    ensures Written(ProgramPages(EraseSectors(f, start, sectors), start, image, n), f,
                    start, sectors * SECTOR_SIZE, image)
  {
    hide ProgramPages, EraseSectors, And8, RunIndex, Geometry;
    var erased := EraseSectors(f, start, sectors);
    var f' := ProgramPages(erased, start, image, n);
    WholeSectors(|f|);
    PageMultiple(start);
    PageMultiple(|f|);
    EraseSectorsExact(f, start, sectors);
    ProgramPagesExact(erased, start, image, n);
    forall i | 0 <= i < |f'|
      ensures f'[i] == WrittenByte(f[i], image, sectors * SECTOR_SIZE, RunIndex(start, i, |f'|), |f'|)
    {
      var q := RunIndex(start, i, |f|);
      if q < |image| {
        AndOnes(image[q]);
      }
    }
  }

  lemma WholeSectors(size: nat)
    requires Geometry(size)
    ensures size % SECTOR_SIZE == 0 && size >= SECTOR_SIZE
  {
  }

  lemma PageMultiple(x: nat)
    requires x % SECTOR_SIZE == 0
    ensures x % PAGE_SIZE == 0
  {
  }

  /** The pages programmed fit the sectors erased: the payload is shorter than the file they were
      counted for. */
  lemma PagesFitSectors(n: nat, fsize: nat)
    requires n <= fsize
    ensures Pages(n) * PAGE_SIZE <= (LastSector(fsize) + 1) * SECTOR_SIZE
  {
    var k := (LastSector(fsize) + 1) * 256;
    assert n <= k * PAGE_SIZE;
    PagesMonotone(n, k * PAGE_SIZE);
    PagesReached(k * PAGE_SIZE, k);
  }

  /** What an accepted write programs. */
  ghost function WriteImage(s: Setup, files: Files, f: seq<byte>, c: WriteCall, b: seq<byte>): (image: seq<byte>)
    requires StackFrame(c.stack) && |f| > 0 && |s.boot| == BOOT_BLOCK_SIZE && |b| == SECTOR_SIZE
    requires FileAccepted(s, files, c)
  {
    Image(Payload(s, files, c.name, c.stack), StagedBuffer(s, files, f, c, b))
  }

  lemma ImageFits(s: Setup, files: Files, f: seq<byte>, c: WriteCall, b: seq<byte>)
    requires StackFrame(c.stack) && |f| > 0 && |s.boot| == BOOT_BLOCK_SIZE && |b| == SECTOR_SIZE
    requires FileAccepted(s, files, c)
    ensures var p, image := Payload(s, files, c.name, c.stack), WriteImage(s, files, f, c, b);
      |p| <= |image| <= ErasedFor(|files[c.name]|) && image[..|p|] == p
  {
    hide Image, StagedBuffer;
    PagesFitSectors(|Payload(s, files, c.name, c.stack)|, |files[c.name]|);
    StreamInImage(Payload(s, files, c.name, c.stack), StagedBuffer(s, files, f, c, b));
  }

  /** Image and frame, for every accepted write from a sector boundary in a flash of known size. The
      run may go round the end of the flash; what the boot check left is kept outside of it. */
  lemma WriteLeaves(s: Setup, files: Files, f: seq<byte>, c: WriteCall, b: seq<byte>)
    requires Known(s.flashId) && |f| == FlashSize(s.flashId) && Geometry(|f|)
    requires |s.boot| == BOOT_BLOCK_SIZE && |b| == SECTOR_SIZE && StackFrame(c.stack)
    requires c.start % SECTOR_SIZE == 0 && c.start < |f| && WriteAccepted(s, files, f, c)
    ensures |WriteImage(s, files, f, c, b)| <= ErasedFor(|files[c.name]|) <= |f| + SECTOR_SIZE
    ensures BootChecked(s) ==> ErasedFor(|files[c.name]|) <= |f|
    ensures Written(WriteResult(s, files, f, c, b), Booted(s, f, c.fixBoot),
                    c.start, ErasedFor(|files[c.name]|), WriteImage(s, files, f, c, b))
  {
    hide BootOk, Booted, StagedBuffer, ProgramPages, EraseSectors, Image, Geometry;
    WholeSectors(|f|);
    FlashSizes(s.flashId);
    ImageFits(s, files, f, c, b);
    var p := Payload(s, files, c.name, c.stack);
    EraseThenProgram(Booted(s, f, c.fixBoot), c.start, LastSector(|files[c.name]|) + 1,
                     WriteImage(s, files, f, c, b), Pages(|p|));
  }

  /** A write that stays within the flash, of any size: the payload from the start address on, then
      the rest of the last page, then 0xFF up to the end of the last sector erased. Outside those
      sectors it is what the boot check left, which is the old flash except for a repaired boot
      sector. */
  lemma WriteInPlace(s: Setup, files: Files, f: seq<byte>, c: WriteCall, b: seq<byte>)
    requires Geometry(|f|) && |s.boot| == BOOT_BLOCK_SIZE && |b| == SECTOR_SIZE && StackFrame(c.stack)
    requires c.start % SECTOR_SIZE == 0 && WriteAccepted(s, files, f, c) && ErasedEnd(c.start, |files[c.name]|) <= |f|
    ensures var f', booted := WriteResult(s, files, f, c, b), Booted(s, f, c.fixBoot);
      var p, image := Payload(s, files, c.name, c.stack), WriteImage(s, files, f, c, b);
      var end := ErasedEnd(c.start, |files[c.name]|);
      && |p| <= |image| && c.start + |image| <= end <= |f'| == |f|
      && f'[c.start..c.start + |p|] == p
      && f'[c.start..c.start + |image|] == image
      && (forall i | c.start + |image| <= i < end :: f'[i] == 0xFF)
      && (forall i | 0 <= i < c.start || end <= i < |f| :: f'[i] == booted[i])
    ensures Repairs(s, f, c.fixBoot) || Booted(s, f, c.fixBoot) == f
    ensures forall i | SECTOR_SIZE <= i < |f| :: Booted(s, f, c.fixBoot)[i] == f[i]
  {
    hide BootOk, Booted, StagedBuffer, ProgramPages, EraseSectors, Image, Repairs, Geometry, WrittenByte, RunIndex,
         MaxSectors, LastSector;
    var p, image := Payload(s, files, c.name, c.stack), WriteImage(s, files, f, c, b);
    ImageFits(s, files, f, c, b);
    EraseThenProgram(Booted(s, f, c.fixBoot), c.start, LastSector(|files[c.name]|) + 1, image, Pages(|p|));
    InPlace(WriteResult(s, files, f, c, b), Booted(s, f, c.fixBoot), c.start, ErasedFor(|files[c.name]|), image, p);
    BootedFrame(s, f, c.fixBoot);
  }

  lemma InPlace(f': seq<byte>, before: seq<byte>, start: nat, erased: nat, image: seq<byte>, p: seq<byte>)
    requires Written(f', before, start, erased, image) && |image| <= erased && start + erased <= |f'|
    requires |p| <= |image| && image[..|p|] == p
    ensures f'[start..start + |image|] == image && f'[start..start + |p|] == p
    ensures forall i | start + |image| <= i < start + erased :: f'[i] == 0xFF
    ensures forall i | 0 <= i < start || start + erased <= i < |f'| :: f'[i] == before[i]
  {
    hide And8;
    assert f'[start..start + |image|] == image;
    SliceOfRest(f', start, 0, |p|);
    SliceOfRest(f', start, 0, |image|);
    assert f'[start..][..|p|] == f'[start..][..|image|][..|p|];
  }
}
