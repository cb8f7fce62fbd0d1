/** How eeprom_write, eeprom_verify, flash_backup and flash_restore fit together. */
module VerifyProperties {
  import opened Bytes
  import opened Flash
  import opened Bitfile
  import opened Padding
  import opened Sidecar
  import opened Plan
  import opened WriteProperties

  // Write, then verify

  /** Where an image comes round to the same place of the flash, it has the same byte there. */
  predicate RoundsAgree(image: seq<byte>, size: nat) {
    forall q | size <= q < |image| :: image[q] == image[q - size]
  }

  /** Flash an image was written to holds it, unless it comes round and overwrites itself. */
  lemma HoldsWritten(f': seq<byte>, before: seq<byte>, start: nat, erased: nat, image: seq<byte>)
    requires Written(f', before, start, erased, image) && |image| <= 2 * |f'|
    ensures FlashHolds(f', start, image) <==> RoundsAgree(image, |f'|)
  {
    hide And8, RunIndex;
    var size := |f'|;
    if FlashHolds(f', start, image) {
      forall q | size <= q < |image|
        ensures image[q] == image[q - size]
      {
        RunPlace(start, q, size);
        RunPlace(start, q - size, size);
        WrapRounds(start, q, size);
        WrapRounds(start, q - size, size);
        assert f'[Wrap(start + q, size)] == image[q] && f'[Wrap(start + (q - size), size)] == image[q - size];
      }
    }
    if RoundsAgree(image, size) {
      forall q | 0 <= q < |image|
        ensures f'[Wrap(start + q, size)] == image[q]
      {
        RunPlace(start, q, size);
        AndTwice(image[q]);
      }
    }
  }

  lemma AndTwice(x: byte)
    ensures And8(x, x) == x
  {
    AndSame(x);
  }

  /** Byte `i` of sector 0 once a write has come round to it. */
  function Tail(image: seq<byte>, start: nat, size: nat, i: nat): byte
    requires start <= size
  {
    if size - start + i < |image| then image[size - start + i] else 0xFF
  }

  /** A write keeps the boot block: it does not reach the boot sector, or happens to put the boot
      block there. */
  predicate KeepsBoot(s: Setup, size: nat, start: nat, erased: nat, image: seq<byte>)
    requires start <= size && |s.boot| == BOOT_BLOCK_SIZE
  {
    start + erased <= size || forall i | 0 <= i < BOOT_BLOCK_SIZE :: Tail(image, start, size, i) == s.boot[i]
  }

  lemma BootBytes(s: Setup, f: seq<byte>)
    requires |f| >= PAGE_SIZE && |s.boot| == BOOT_BLOCK_SIZE
    ensures BootOk(s, f) <==> forall i | 0 <= i < BOOT_BLOCK_SIZE :: f[i] == s.boot[i]
  {
    var page := ReadAt(f, 0, PAGE_SIZE);
    assert forall i | 0 <= i < BOOT_BLOCK_SIZE :: page[i] == f[i] by {
      forall i | 0 <= i < BOOT_BLOCK_SIZE
        ensures page[i] == f[i]
      {
        ReadPlace(f, 0, PAGE_SIZE, i);
      }
    }
    assert forall i | 0 <= i < BOOT_BLOCK_SIZE :: page[..BOOT_BLOCK_SIZE][i] == f[i];
  }

  /** The boot check compares the first 64 bytes of the flash. */
  lemma BootBlockBytes(s: Setup, f: seq<byte>)
    requires |f| >= 256 && |s.boot| == 64
    ensures BootOk(s, f) <==> f[..64] == s.boot
  {
    BootBytes(s, f);
    if f[..64] == s.boot {
      assert forall i | 0 <= i < 64 :: f[i] == f[..64][i];
    }
  }

  /** The boot sector after a write that starts behind it: as before, or overrun by the end of the
      run. */
  lemma BootSector(f': seq<byte>, before: seq<byte>, start: nat, erased: nat, image: seq<byte>, i: nat)
    requires Written(f', before, start, erased, image) && |image| <= erased <= |f'| && i < SECTOR_SIZE <= start
    requires start % SECTOR_SIZE == 0 && erased % SECTOR_SIZE == 0 && |f'| % SECTOR_SIZE == 0
    ensures f'[i] == if start + erased <= |f'| then before[i] else Tail(image, start, |f'|, i)
  {
    hide And8;
    if start + erased > |f'| {
      assert start + erased >= |f'| + SECTOR_SIZE;
    }
  }

  /** When the boot check still passes after a write. */
  lemma BootAfterWrite(s: Setup, f': seq<byte>, before: seq<byte>, start: nat, erased: nat, image: seq<byte>)
    requires Written(f', before, start, erased, image) && |image| <= erased <= |f'| && SECTOR_SIZE <= start
    requires start % SECTOR_SIZE == 0 && erased % SECTOR_SIZE == 0 && |f'| % SECTOR_SIZE == 0
    requires |s.boot| == BOOT_BLOCK_SIZE && BootOk(s, before)
    ensures BootOk(s, f') <==> KeepsBoot(s, |f'|, start, erased, image)
  {
    hide WrittenByte, Tail, BootOk;
    BootBytes(s, before);
    BootBytes(s, f');
    forall i | 0 <= i < BOOT_BLOCK_SIZE
      ensures f'[i] == if start + erased <= |f'| then before[i] else Tail(image, start, |f'|, i)
    {
      BootSector(f', before, start, erased, image, i);
    }
  }

  /** A file as large as the flash is compared with all of it. */
  lemma WholeFlashHolds(f: seq<byte>, file: seq<byte>, b: seq<byte>)
    requires |file| == |f| && Geometry(|f|) && |b| >= CHUNK
    ensures FlashHolds(f, 0, Image(file, b)) <==> f == file
  {
    PageMultiple(|file|);
    WholePages(file, b);
    if f == file {
      forall q | 0 <= q < |file|
        ensures f[Wrap(0 + q, |f|)] == file[q]
      {
      }
    }
    if FlashHolds(f, 0, file) {
      forall q | 0 <= q < |file|
        ensures f[q] == file[q]
      {
        assert f[Wrap(0 + q, |f|)] == file[q];
      }
    }
  }

  /** The file is what a write of `image` from `start` on makes of a flash of its size: the image, then
      0xFF. */
  predicate OwnImage(file: seq<byte>, start: nat, image: seq<byte>)
    requires start < |file|
  {
    forall i | 0 <= i < |file| ::
      var q := RunIndex(start, i, |file|);
      file[i] == if q < |image| then image[q] else 0xFF
  }

  /** When a flash holds the whole file after its write, which was of what follows the header. */
  lemma WholeFlashWritten(s: Setup, files: Files, f: seq<byte>, c: WriteCall, b: seq<byte>)
    requires Known(s.flashId) && |f| == FlashSize(s.flashId) && Geometry(|f|)
    requires |s.boot| == BOOT_BLOCK_SIZE && |b| == SECTOR_SIZE && StackFrame(c.stack)
    requires c.start % SECTOR_SIZE == 0 && c.start < |f| && WriteAccepted(s, files, f, c)
    requires WholeFlash(s, files, c.name)
    ensures WriteResult(s, files, f, c, b) == files[c.name] <==>
            OwnImage(files[c.name], c.start, WriteImage(s, files, f, c, b))
  {
    hide WriteResult, WriteImage, And8, RunIndex, Geometry, MaxSectors, BootOk, Booted;
    var f', file, image := WriteResult(s, files, f, c, b), files[c.name], WriteImage(s, files, f, c, b);
    WriteLeaves(s, files, f, c, b);
    FlashSizes(s.flashId);
    assert ErasedFor(|file|) == |f|;
    assert forall i | 0 <= i < |f| ::
        var q := RunIndex(c.start, i, |f|);
        f'[i] == if q < |image| then image[q] else 0xFF;
  }

  /** Where the program takes a file as large as the flash: on Xilinx boards with one image, and on
      Efinix boards with a 1Mb part. */
  lemma WholeFlashPasses(s: Setup, toFallback: bool)
    requires Known(s.flashId)
    ensures LastSector(FlashSize(s.flashId)) <= MaxSectors(s, StartAddress(s, toFallback)) <==>
            if s.efinix then s.flashId == ID_EEPROM_1M else !s.fallback
  {
  }

  /** The calls this is about: an accepted write to a flash of known size from a sector boundary,
      behind the boot sector on boards that have one, whose header reads the same again. */
  ghost predicate SoundWrite(s: Setup, files: Files, f: seq<byte>, c: WriteCall, b: seq<byte>, again: Stack) {
    && Known(s.flashId) && |f| == FlashSize(s.flashId) && Geometry(|f|)
    && |s.boot| == BOOT_BLOCK_SIZE && |b| == SECTOR_SIZE && StackFrame(c.stack) && StackFrame(again)
    && WriteAccepted(s, files, f, c) && c.start % SECTOR_SIZE == 0 && c.start < |f|
    && (BootChecked(s) ==> SECTOR_SIZE <= c.start)
    && HeaderOf(s, files, c.name, again) == HeaderOf(s, files, c.name, c.stack)
  }

  /** Write then verify, exactly: after a sound write, verifying the same file at the same address
      succeeds if and only if
      - the part name is the board's, which a recovering write does not check and verify always does,
      - the run has not gone round the end of the flash over the boot block, and
      - an image larger than the flash is the same where it has overwritten itself;
      for a file as large as the flash, which verify takes for a dump of all of it, if and only if
      the file as a whole is its own image followed by 0xFF. Only there the bytes behind the payload
      matter; otherwise they do not, whatever the buffer held before the write. */
  lemma VerifyAfterWrite(s: Setup, files: Files, f: seq<byte>, c: WriteCall, b: seq<byte>, again: Stack)
    requires SoundWrite(s, files, f, c, b, again)
    ensures var f', image := WriteResult(s, files, f, c, b), WriteImage(s, files, f, c, b);
      var b' := BufferAfter(Payload(s, files, c.name, c.stack), StagedBuffer(s, files, f, c, b));
      VerifyAccepted(s, files, f', c.name, c.start, again, b') <==>
      if WholeFlash(s, files, c.name) then OwnImage(files[c.name], c.start, image)
      else
        && (0x7C in s.part || HeaderOf(s, files, c.name, c.stack).part == s.part)
        && (s.fallback && !s.efinix ==> KeepsBoot(s, |f|, c.start, ErasedFor(|files[c.name]|), image))
        && RoundsAgree(image, |f|)
  {
    hide Image, BufferAfter, StagedBuffer, BootOk, Booted, ParseHeader, Written, KeepsBoot, FlashHolds, RoundsAgree,
         Geometry, WriteResult, Matches, OwnImage;
    var f', image := WriteResult(s, files, f, c, b), WriteImage(s, files, f, c, b);
    var p, staged := Payload(s, files, c.name, c.stack), StagedBuffer(s, files, f, c, b);
    WholeSectors(|f|);
    WriteLeaves(s, files, f, c, b);
    if WholeFlash(s, files, c.name) {
      WholeFlashHolds(f', files[c.name], BufferAfter(p, staged));
      WholeFlashWritten(s, files, f, c, b);
    } else {
      ImageStable(p, staged);
      var before, erased := Booted(s, f, c.fixBoot), ErasedFor(|files[c.name]|);
      HoldsWritten(f', before, c.start, erased, image);
      if BootChecked(s) {
        BootAfterWrite(s, f', before, c.start, erased, image);
      }
    }
  }

  /** At the limit of the guard, a user image of a board with a boot sector: eeprom_write returns 0,
      having erased sector 0 and programmed the end of the image over it; the boot check of any
      verification from then on fails, unless that end starts with the boot block. */
  lemma UserWriteAtLimit(s: Setup, files: Files, f: seq<byte>, c: WriteCall, b: seq<byte>)
    requires Known(s.flashId) && |f| == FlashSize(s.flashId) && |s.boot| == BOOT_BLOCK_SIZE && |b| == SECTOR_SIZE
    requires StackFrame(c.stack) && WriteAccepted(s, files, f, c)
    requires BootChecked(s) && DistinctImages(s) && c.start == StartAddress(s, false)
    requires LastSector(|files[c.name]|) == MaxSectors(s, c.start)
    ensures var f', image, from := WriteResult(s, files, f, c, b), WriteImage(s, files, f, c, b), UserSpace(s.flashId);
      && |f'| >= SECTOR_SIZE
      && (forall i | 0 <= i < SECTOR_SIZE :: f'[i] == if from + i < |image| then image[from + i] else 0xFF)
      && (BootOk(s, f') <==>
          forall i | 0 <= i < BOOT_BLOCK_SIZE :: s.boot[i] == if from + i < |image| then image[from + i] else 0xFF)
      && (!BootOk(s, f') ==>
            forall again: Stack, b': seq<byte> | StackFrame(again) && |b'| == SECTOR_SIZE ::
              !VerifyAccepted(s, files, f', c.name, c.start, again, b'))
  {
    hide Image, StagedBuffer, BootOk, Booted, ParseHeader, Written, WriteResult, Matches, Geometry, FlashHolds;
    var f', image := WriteResult(s, files, f, c, b), WriteImage(s, files, f, c, b);
    KnownGeometry(s.flashId);
    WholeSectors(|f|);
    FlashSizes(s.flashId);
    SectorAccounting(s, false, |files[c.name]|);
    WriteLeaves(s, files, f, c, b);
    var before, erased := Booted(s, f, c.fixBoot), ErasedFor(|files[c.name]|);
    BootAfterWrite(s, f', before, c.start, erased, image);
    forall i | 0 <= i < SECTOR_SIZE
      ensures f'[i] == Tail(image, c.start, |f|, i)
    {
      BootSector(f', before, c.start, erased, image, i);
    }
  }

  /** A bit file, any header that fits and any payload, is to be written to where the program sends
      it, on a board with a flash of known size and with any file buffer and stack. */
  ghost predicate BitfileWrite(s: Setup, files: Files, f: seq<byte>, c: WriteCall, b: seq<byte>, again: Stack,
                               h: XilinxHeader, payload: seq<byte>, toFallback: bool) {
    && Known(s.flashId) && |f| == FlashSize(s.flashId) && |s.boot| == BOOT_BLOCK_SIZE && |b| == SECTOR_SIZE
    && StackFrame(c.stack) && StackFrame(again) && Fits(h)
    && c.name in files && files[c.name] == Serialise(h) + payload && c.start == StartAddress(s, toFallback)
  }

  /** Whatever the stack held, the header of a bit file is read as it was written. */
  lemma BitfileHeader(s: Setup, files: Files, name: seq<byte>, stack: Stack, h: XilinxHeader, payload: seq<byte>)
    requires StackFrame(stack) && Fits(h) && name in files && files[name] == Serialise(h) + payload
    ensures HeaderOf(s, files, name, stack) == Accepted(|Serialise(h)|, |Serialise(h)|, false, h.part)
    ensures Payload(s, files, name, stack) == payload
  {
    hide ParseHeader, Serialise, Fits;
    HeaderRoundTrip(h, payload, stack, s.text);
  }

  /** When eeprom_write takes a bit file: its checksum and part name are right if they are checked,
      the boot block is there or may be repaired, and the guard lets its size pass. */
  lemma BitfileAccepted(s: Setup, files: Files, f: seq<byte>, c: WriteCall, b: seq<byte>, again: Stack,
                        h: XilinxHeader, payload: seq<byte>, toFallback: bool)
    requires BitfileWrite(s, files, f, c, b, again, h, payload, toFallback)
    ensures WriteAccepted(s, files, f, c) <==>
      && (c.sha256Check ==> Matches(s.digest, files, c.name))
      && (s.recover || 0x7C in s.part || h.part == s.part)
      && (s.fallback && !s.efinix ==> c.fixBoot || f[..64] == s.boot)
      && LastSector(|files[c.name]|) <= MaxSectors(s, c.start)
  {
    hide ParseHeader, Serialise, Fits, BootOk, WithBoot, Matches;
    KnownGeometry(s.flashId);
    BitfileHeader(s, files, c.name, c.stack, h, payload);
    BootBlockBytes(s, f);
    BootRepairHolds(s, f);
  }

  /** Which part names pass: where the board takes one part only, a write that checks them is accepted
      for no other, and no verification succeeds for another, but for files as large as the flash. */
  lemma PartNames(s: Setup, files: Files, f: seq<byte>, c: WriteCall, b: seq<byte>, again: Stack,
                  h: XilinxHeader, payload: seq<byte>, toFallback: bool, f2: seq<byte>, start: nat, b2: seq<byte>)
    requires BitfileWrite(s, files, f, c, b, again, h, payload, toFallback) && |f2| > 0 && |b2| == SECTOR_SIZE
    requires 0x7C !in s.part && h.part != s.part
    ensures WriteAccepted(s, files, f, c) ==> s.recover
    ensures VerifyAccepted(s, files, f2, c.name, start, again, b2) ==> |files[c.name]| == |f|
  {
    hide ParseHeader, Serialise, Fits, BootOk, Booted, Matches, Image, FlashHolds;
    BitfileHeader(s, files, c.name, c.stack, h, payload);
    BitfileHeader(s, files, c.name, again, h, payload);
  }

  /** Writing and verifying a bit file below 2 GiB has a meaning in C, whatever the stack holds. */
  lemma BitfileDefined(s: Setup, files: Files, f: seq<byte>, c: WriteCall, b: seq<byte>, again: Stack,
                       h: XilinxHeader, payload: seq<byte>, toFallback: bool)
    requires BitfileWrite(s, files, f, c, b, again, h, payload, toFallback) && |files[c.name]| < 0x8000_0000
    ensures Defined(s, files, c.name, c.start, c.stack) && VerifyDefined(s, files, c.name, c.start, again)
  {
    hide ParseHeader, Serialise, Fits;
    BitfileHeader(s, files, c.name, c.stack, h, payload);
    BitfileHeader(s, files, c.name, again, h, payload);
  }

  /** Every accepted write of a bit file is a sound write. */
  lemma BitfileWriteSound(s: Setup, files: Files, f: seq<byte>, c: WriteCall, b: seq<byte>, again: Stack,
                          h: XilinxHeader, payload: seq<byte>, toFallback: bool)
    requires BitfileWrite(s, files, f, c, b, again, h, payload, toFallback)
    requires c.sha256Check ==> Matches(s.digest, files, c.name)
    requires s.recover || 0x7C in s.part || h.part == s.part
    requires s.fallback && !s.efinix ==> c.fixBoot || f[..64] == s.boot
    requires LastSector(|files[c.name]|) <= MaxSectors(s, c.start)
    ensures SoundWrite(s, files, f, c, b, again)
  {
    hide ParseHeader, Serialise, Fits, WriteAccepted, BootOk, Booted, Matches;
    KnownGeometry(s.flashId);
    BitfileAccepted(s, files, f, c, b, again, h, payload, toFallback);
    BitfileHeader(s, files, c.name, c.stack, h, payload);
    BitfileHeader(s, files, c.name, again, h, payload);
    StartsOnSector(s, toFallback);
  }

  lemma StartsOnSector(s: Setup, toFallback: bool)
    requires Known(s.flashId)
    ensures StartAddress(s, toFallback) % SECTOR_SIZE == 0 && StartAddress(s, toFallback) < FlashSize(s.flashId)
    ensures BootChecked(s) ==> SECTOR_SIZE <= StartAddress(s, toFallback)
  {
    FlashSizes(s.flashId);
  }

  /** Write then verify for bit files. With a right checksum, the board's part name, and a boot
      block that is there or may be repaired, a file that the guard lets pass, that ends within the
      flash and is not as large as it is accepted, its payload is in the flash, and verifying it
      succeeds. */
  lemma WriteThenVerify(s: Setup, files: Files, f: seq<byte>, c: WriteCall, b: seq<byte>, again: Stack,
                        h: XilinxHeader, payload: seq<byte>, toFallback: bool)
    requires BitfileWrite(s, files, f, c, b, again, h, payload, toFallback) && |files[c.name]| != |f|
    requires c.sha256Check ==> Matches(s.digest, files, c.name)
    requires 0x7C in s.part || h.part == s.part
    requires s.fallback && !s.efinix ==> c.fixBoot || f[..64] == s.boot
    requires LastSector(|files[c.name]|) <= MaxSectors(s, c.start) && ErasedEnd(c.start, |files[c.name]|) <= |f|
    ensures WriteAccepted(s, files, f, c)
    ensures var f' := WriteResult(s, files, f, c, b);
      var b' := BufferAfter(payload, StagedBuffer(s, files, f, c, b));
      && VerifyAccepted(s, files, f', c.name, c.start, again, b')
      && c.start + |payload| <= |f'| && f'[c.start..c.start + |payload|] == payload
  {
    hide ParseHeader, Serialise, Fits, BootOk, Booted, VerifyAccepted, WriteResult, BufferAfter, StagedBuffer, Matches;
    BitfileHeader(s, files, c.name, c.stack, h, payload);
    BitfileAccepted(s, files, f, c, b, again, h, payload, toFallback);
    BitfileWriteSound(s, files, f, c, b, again, h, payload, toFallback);
    VerifyAfterWrite(s, files, f, c, b, again);
    WriteInPlace(s, files, f, c, b);
  }

  /** Write then verify, where it fails: on a Xilinx board with one image, any bit file as large as the
      flash whose payload does not start like a bit file. It is accepted and written, and then
      verified with its header as a dump of the flash, which begins with the payload. */
  lemma WholeFlashFails(s: Setup, files: Files, f: seq<byte>, c: WriteCall, b: seq<byte>, again: Stack,
                        h: XilinxHeader, payload: seq<byte>)
    requires BitfileWrite(s, files, f, c, b, again, h, payload, false) && WholeFlash(s, files, c.name)
    requires !s.efinix && !s.fallback && (0x7C in s.part || h.part == s.part)
    requires c.sha256Check ==> Matches(s.digest, files, c.name)
    requires !([0, 9] <= payload)
    ensures WriteAccepted(s, files, f, c)
    ensures var b' := BufferAfter(payload, StagedBuffer(s, files, f, c, b));
      !VerifyAccepted(s, files, WriteResult(s, files, f, c, b), c.name, c.start, again, b')
  {
    hide ParseHeader, Serialise, Fits, BootOk, Booted, VerifyAccepted, WriteResult, BufferAfter, StagedBuffer, Matches,
         WriteImage, WriteAccepted, OwnImage, RunIndex;
    FlashSizes(s.flashId);
    WholeFlashPasses(s, false);
    HeaderLength(h);
    BitfileHeader(s, files, c.name, c.stack, h, payload);
    BitfileAccepted(s, files, f, c, b, again, h, payload, false);
    BitfileWriteSound(s, files, f, c, b, again, h, payload, false);
    VerifyAfterWrite(s, files, f, c, b, again);
    ImageFits(s, files, f, c, b);
    var image := WriteImage(s, files, f, c, b);
    HeaderNotImage(files[c.name], h, payload, image);
  }

  /** A bit file is not its own image, unless the payload starts like the file. */
  lemma HeaderNotImage(file: seq<byte>, h: XilinxHeader, payload: seq<byte>, image: seq<byte>)
    requires Fits(h) && file == Serialise(h) + payload && |payload| >= 2 && payload[..2] != [0, 9]
    requires |payload| <= |image| && image[..|payload|] == payload
    ensures !OwnImage(file, 0, image)
  {
    hide Serialise;
    HeaderLength(h);
    OwnStart(file, image);
    assert payload[0] == image[..|payload|][0] && payload[1] == image[..|payload|][1];
    assert payload[..2] == [payload[0], payload[1]];
  }

  lemma OwnStart(file: seq<byte>, image: seq<byte>)
    requires |file| >= 2 && |image| >= 2
    ensures OwnImage(file, 0, image) ==> file[0] == image[0] && file[1] == image[1]
  {
    assert RunIndex(0, 0, |file|) == 0 && RunIndex(0, 1, |file|) == 1;
  }

  lemma KnownGeometry(id: byte)
    requires Known(id)
    ensures Geometry(FlashSize(id))
  {
    assert FlashSize(id) in {0x2_0000, 0x4_0000, 0x8_0000, 0x10_0000, 0x20_0000, 0x40_0000};
  }

  // Backup, then restore

  /** A restore that is accepted leaves exactly the file, whatever was in the flash and the
      buffer. */
  lemma RestoreExact(s: Setup, f: seq<byte>, file: seq<byte>, b: seq<byte>)
    requires Known(s.flashId) && |f| == |file| == FlashSize(s.flashId) && |b| == SECTOR_SIZE
    ensures RestoreResult(s, f, file, b) == file
  {
    KnownGeometry(s.flashId);
    FlashSizes(s.flashId);
    PageMultiple(|file|);
    WholePages(file, BufferAfter(file, b));
    EraseThenProgram(f, 0, |file| / SECTOR_SIZE, file, Pages(|file|));
    InPlace(RestoreResult(s, f, file, b), f, 0, |f|, file, file);
    var f' := RestoreResult(s, f, file, b);
    assert f'[0..0 + |file|] == f';
  }

  /** Backup and restore round trip: the files a backup of flash F leaves are accepted by a restore
      on the same board, at any later time, and bring back exactly F; and F then verifies. */
  lemma BackupRestores(s: Setup, files: Files, name: seq<byte>, f: seq<byte>,
                       later: seq<byte>, b: seq<byte>, start: nat, stack: Stack, b': seq<byte>)
    requires Known(s.flashId) && |f| == |later| == FlashSize(s.flashId)
    requires |b| == |b'| == SECTOR_SIZE && StackFrame(stack)
    ensures var saved := BackupFiles(s, files, name, Dump(f, FlashSize(s.flashId)));
      && RestoreAccepted(s, saved, name)
      && RestoreResult(s, later, saved[name], b) == f
      && VerifyAccepted(s, saved, f, name, start, stack, b')
  {
    KnownGeometry(s.flashId);
    DumpAll(f);
    var saved := BackupFiles(s, files, name, f);
    assert |name + EXTENSION| != |name|;
    assert saved[name] == f && saved[name + EXTENSION] == Line(s.digest(f), name);
    LineMatches(s.digest, saved, name, f);
    RestoreExact(s, later, f, b);
    WholeFlashHolds(f, f, b');
  }

  lemma DumpAll(f: seq<byte>)
    requires |f| > 0
    ensures Dump(f, |f|) == f
  {
    forall i | 0 <= i < |f|
      ensures Dump(f, |f|)[i] == f[i]
    {
      ReadPlace(f, 0, |f|, i);
    }
  }
}
