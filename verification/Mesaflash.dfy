/** The program's commands: where an image goes, and the verification that follows a write or a
    restore in the same process, through the same buffers. */
module Mesaflash {
  import opened Bytes
  import opened Flash
  import opened Bitfile
  import opened Padding
  import opened Sidecar
  import opened Plan
  import opened WriteProperties
  import opened VerifyProperties
  import opened Eeprom

  /** anyio_dev_write_flash: the board's own start address or its fallback address. */
  method WriteFlash(e: Engine, name: seq<byte>, fallbackFlag: bool, fixBoot: bool, sha256Check: bool, stack: Stack)
    returns (ret: int)
    requires e.Valid() && Defined(e.Setup(), e.files, name, StartAddress(e.Setup(), fallbackFlag), stack)
    modifies e.access.local, e.access.remote, e.fileBuffer, e.pageBuffer
    ensures e.Valid() && e.access.Faults() == old(e.access.Faults())
    ensures var c := WriteCall(name, StartAddress(e.Setup(), fallbackFlag), fixBoot, sha256Check, stack);
      WriteOutcome(e.Setup(), e.files, old(e.Contents()), c, old(e.fileBuffer[..]), ret, e.Contents(), e.fileBuffer[..])
  {
    hide WriteOutcome, Defined;
    var addr := if e.fallbackSupport then UserSpace(e.flashId) else 0;
    if fallbackFlag {
      if e.efinix {
        addr := EFINIX_FALLBACK_ADDRESS;
      } else {
        addr := XILINX_FALLBACK_ADDRESS;
      }
    }
    ret := e.EepromWrite(name, addr, fixBoot, sha256Check, stack);
    e.access.ParkChipSelect();
  }

  method VerifyFlash(e: Engine, name: seq<byte>, fallbackFlag: bool, stack: Stack) returns (ret: int, report: Report)
    requires e.Valid() && VerifyDefined(e.Setup(), e.files, name, StartAddress(e.Setup(), fallbackFlag), stack)
    modifies e.access.local, e.access.remote, e.fileBuffer, e.pageBuffer
    ensures e.Valid() && e.Contents() == old(e.Contents()) && e.access.Faults() == old(e.access.Faults())
    ensures VerifyOutcome(e.Setup(), e.files, e.Contents(), name, StartAddress(e.Setup(), fallbackFlag), stack,
                          old(e.fileBuffer[..]), ret, report, e.fileBuffer[..])
  {
    hide VerifyOutcome, VerifyDefined;
    var addr := if e.fallbackSupport then UserSpace(e.flashId) else 0;
    if fallbackFlag {
      if e.efinix {
        addr := EFINIX_FALLBACK_ADDRESS;
      } else {
        addr := XILINX_FALLBACK_ADDRESS;
      }
    }
    ret, report := e.EepromVerify(name, addr, stack);
  }

  /** mesaflash --write --auto-verify: it succeeds exactly when the write is accepted and the
      verification then is. A sound write verifies exactly when the part is the board's and the run
      has spared the boot block and itself, or, for a file as large as the flash, when it is as a
      whole its own image and 0xFF. */
  method WriteAndVerify(e: Engine, name: seq<byte>, fallbackFlag: bool, fixBoot: bool, sha256Check: bool,
                        stack: Stack, again: Stack) returns (ret: int)
    requires e.Valid() && Defined(e.Setup(), e.files, name, StartAddress(e.Setup(), fallbackFlag), stack)
    requires VerifyDefined(e.Setup(), e.files, name, StartAddress(e.Setup(), fallbackFlag), again)
    modifies e.access.local, e.access.remote, e.fileBuffer, e.pageBuffer
    ensures e.Valid() && e.access.Faults() == old(e.access.Faults())
    ensures var s, f, b := e.Setup(), old(e.Contents()), old(e.fileBuffer[..]);
      var c := WriteCall(name, StartAddress(s, fallbackFlag), fixBoot, sha256Check, stack);
      if !WriteAccepted(s, e.files, f, c) then
        ret == -1 && e.Contents() == if FileAccepted(s, e.files, c) then Booted(s, f, fixBoot) else f
      else
        var f', image := WriteResult(s, e.files, f, c, b), WriteImage(s, e.files, f, c, b);
        var b' := BufferAfter(Payload(s, e.files, name, stack), StagedBuffer(s, e.files, f, c, b));
        && e.Contents() == f'
        && ret == (if VerifyAccepted(s, e.files, f', name, c.start, again, b') then 0 else -1)
        && (SoundWrite(s, e.files, f, c, b, again) ==>
              (ret == 0 <==>
               if WholeFlash(s, e.files, name) then OwnImage(e.files[name], c.start, image)
               else
                 && (0x7C in s.part || HeaderOf(s, e.files, name, stack).part == s.part)
                 && (s.fallback && !s.efinix ==> KeepsBoot(s, |f|, c.start, ErasedFor(|e.files[name]|), image))
                 && RoundsAgree(image, |f|)))
  {
    hide WriteAccepted, WriteResult, VerifyAccepted, HeaderOf, BufferAfter, StagedBuffer, Booted, FileChecks,
         KeepsBoot, RoundsAgree, WriteImage, FirstDifference, StartAddress, ReachesComparison, Compared, Payload,
         WholeFlash, FileAccepted, OwnImage;
    ghost var s, f, b := e.Setup(), e.Contents(), e.fileBuffer[..];
    ghost var c := WriteCall(name, StartAddress(s, fallbackFlag), fixBoot, sha256Check, stack);
    ret := WriteFlash(e, name, fallbackFlag, fixBoot, sha256Check, stack);
    if SoundWrite(s, e.files, f, c, b, again) {
      VerifyAfterWrite(s, e.files, f, c, b, again);
    }
    if ret == 0 {
      var report;
      ret, report := VerifyFlash(e, name, fallbackFlag, again);
    }
  }

  /** mesaflash --restore-flash --auto-verify: it succeeds exactly when the flash is of known size and
      the file a checked dump of that size, and then the flash is that dump. */
  method RestoreAndVerify(e: Engine, name: seq<byte>, fallbackFlag: bool, stack: Stack) returns (ret: int)
    requires e.Valid() && StackFrame(stack) && (Known(e.flashId) ==> |e.Contents()| == FlashSize(e.flashId))
    modifies e.access.local, e.access.remote, e.fileBuffer, e.pageBuffer
    ensures e.Valid() && e.access.Faults() == old(e.access.Faults())
    ensures ret == if RestoreAccepted(e.Setup(), e.files, name) then 0 else -1
    ensures e.Contents() == if ret == 0 then e.files[name] else old(e.Contents())
  {
    hide RestoreResult, Matches, VerifyAccepted, FirstDifference;
    ghost var s, f, b := e.Setup(), e.Contents(), e.fileBuffer[..];
    FlashSizes(e.flashId);
    ret := e.FlashRestore(name);
    MatchesFiles(e.digest, e.files, name);
    if ret == 0 {
      KnownGeometry(e.flashId);
      RestoreExact(s, f, e.files[name], b);
      RestoredVerifies(s, e.files, name, e.Contents(), StartAddress(s, fallbackFlag), stack, e.fileBuffer[..]);
      var report;
      ret, report := VerifyFlash(e, name, fallbackFlag, stack);
    }
  }

  lemma RestoredVerifies(s: Setup, files: Files, name: seq<byte>, f: seq<byte>, start: nat, stack: Stack, b: seq<byte>)
    requires Geometry(|f|) && |b| == SECTOR_SIZE && StackFrame(stack)
    requires name in files && files[name] == f && |f| == FlashSize(s.flashId)
    ensures VerifyAccepted(s, files, f, name, start, stack, b)
  {
    WholeFlashHolds(f, f, b);
  }
}
