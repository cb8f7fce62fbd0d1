/** eeprom.c: erasing, programming, verifying, backing up and restoring a flash from a file,
    through the two global buffers and the operations of the board's driver. */
module Eeprom {
  import opened Bytes
  import opened Flash
  import opened Stdio
  import opened Bitfile
  import opened Padding
  import opened Sidecar
  import opened Plan
  import EepromAccess

  class Engine {
    const access: EepromAccess.Access
    const fileBuffer: array<byte>
    const pageBuffer: array<byte>
    const bootBlock: array<byte>
    const efinix: bool
    const fallbackSupport: bool
    const recover: bool
    const flashId: byte
    const fpgaPartNumber: seq<byte>
    const digest: seq<byte> -> Hash
    const text: TextHeader
    var files: Files

    /** A board is opened: its flash is known by its id, and a board with fallback support gets its
        boot block prepared. The two buffers hold anything. */
    constructor (access: EepromAccess.Access, efinix: bool, fallbackSupport: bool, recover: bool, flashId: byte,
                 fpgaPartNumber: seq<byte>, digest: seq<byte> -> Hash, text: TextHeader, files: Files)
      requires access.Valid()
      ensures Valid() && this.access == access && this.files == files
      ensures Setup() == Plan.Setup(efinix, fallbackSupport, recover, flashId, fpgaPartNumber,
        if fallbackSupport then Prepared(flashId, BOOT_BLOCK) else BOOT_BLOCK, digest, text)
    {
      this.access := access;
      this.efinix, this.fallbackSupport, this.recover := efinix, fallbackSupport, recover;
      this.flashId, this.fpgaPartNumber, this.digest, this.text := flashId, fpgaPartNumber, digest, text;
      this.files := files;
      fileBuffer := new byte[SECTOR_SIZE];
      pageBuffer := new byte[PAGE_SIZE];
      var boot := if fallbackSupport then Prepared(flashId, BOOT_BLOCK) else BOOT_BLOCK;
      bootBlock := new byte[BOOT_BLOCK_SIZE](i requires 0 <= i < BOOT_BLOCK_SIZE => boot[i]);
      new;
      assert bootBlock[..] == boot;
    }

    ghost predicate Valid()
      reads access, access.local, access.remote
    {
      && fileBuffer.Length == SECTOR_SIZE && pageBuffer.Length == PAGE_SIZE && bootBlock.Length == BOOT_BLOCK_SIZE
      && fileBuffer != pageBuffer && fileBuffer != bootBlock && pageBuffer != bootBlock
      && access.Valid()
    }

    ghost function Contents(): (f: seq<byte>)
      requires Valid()
      reads access, access.local, access.remote
      ensures Geometry(|f|)
    {
      access.Contents()
    }

    ghost function Setup(): (s: Setup)
      requires bootBlock.Length == BOOT_BLOCK_SIZE
      reads bootBlock
      ensures |s.boot| == BOOT_BLOCK_SIZE
    {
      Plan.Setup(efinix, fallbackSupport, recover, flashId, fpgaPartNumber, bootBlock[..], digest, text)
    }

    /** check_boot: 0 when page 0 starts with the boot block. */
    method CheckBoot() returns (r: int)
      requires Valid()
      modifies access.local, access.remote, pageBuffer
      ensures Valid() && Contents() == old(Contents()) && access.Faults() == old(access.Faults())
      ensures r == if BootOk(Setup(), Contents()) then 0 else -1
    {
      access.ReadPage(0, pageBuffer);
      ghost var page := pageBuffer[..];
      for i := 0 to BOOT_BLOCK_SIZE
        invariant page[..i] == bootBlock[..i]
      {
        if bootBlock[i] != pageBuffer[i] {
          assert page[..BOOT_BLOCK_SIZE][i] != bootBlock[..][i];
          return -1;
        }
      }
      assert bootBlock[..BOOT_BLOCK_SIZE] == bootBlock[..];
      return 0;
    }

    method WriteBoot()
      requires Valid()
      modifies access.local, access.remote, fileBuffer
      ensures Valid() && access.Faults() == old(access.Faults())
      ensures Contents() == WithBoot(Setup(), old(Contents()))
      ensures fileBuffer[..] == BootPage(Setup()) + old(fileBuffer[..])[PAGE_SIZE..]
    {
      hide ProgramAt, EraseAt;
      access.EraseSector(0);
      forall i | 0 <= i < PAGE_SIZE {
        fileBuffer[i] := 0;
      }
      forall i | 0 <= i < BOOT_BLOCK_SIZE {
        fileBuffer[i] := bootBlock[i];
      }
      ghost var page := BootPage(Setup());
      assert forall i | 0 <= i < PAGE_SIZE :: fileBuffer[i] == page[i];
      assert fileBuffer[0..PAGE_SIZE] == page;
      access.WritePage(0, fileBuffer, 0);
    }

    /** start_programming: refuses a file too large for its area and erases the sectors of one that
        is not. */
    method StartProgramming(startAddress: nat, fsize: nat) returns (r: int)
      requires Valid() && startAddress < INT_LIMIT && fsize < INT_LIMIT
      modifies access.local, access.remote
      ensures Valid() && access.Faults() == old(access.Faults())
      ensures LastSector(fsize) > MaxSectors(Setup(), startAddress) ==> r == -1 && Contents() == old(Contents())
      ensures LastSector(fsize) <= MaxSectors(Setup(), startAddress) ==>
        r == 0 && Contents() == EraseSectors(old(Contents()), startAddress, LastSector(fsize) + 1)
    {
      access.ParkChipSelect();
      var esectors := if fsize == 0 then 0 else (fsize - 1) / SECTOR_SIZE;
      var maxSectors;
      if efinix {
        maxSectors := UserSpace(flashId) / SECTOR_SIZE;
      } else if fallbackSupport {
        if startAddress == XILINX_FALLBACK_ADDRESS {
          maxSectors := UserSpace(flashId) / SECTOR_SIZE - 1;
        } else {
          maxSectors := UserSpace(flashId) / SECTOR_SIZE;
        }
      } else {
        maxSectors := FlashSize(flashId) / SECTOR_SIZE;
      }
      if esectors > maxSectors {
        access.ParkChipSelect();
        return -1;
      }
      EraseRun(startAddress, esectors + 1);
      access.ParkChipSelect();
      return 0;
    }

    /** The erase loop of start_programming and flash_erase. */
    method EraseRun(startAddress: nat, count: nat)
      requires Valid() && startAddress + count * SECTOR_SIZE <= U32_LIMIT
      modifies access.local, access.remote
      ensures Valid() && access.Faults() == old(access.Faults())
      ensures Contents() == EraseSectors(old(Contents()), startAddress, count)
    {
      var secAddr := startAddress;
      for sector := 0 to count
        invariant Valid() && access.Faults() == old(access.Faults())
        invariant secAddr == startAddress + sector * SECTOR_SIZE
        invariant Contents() == EraseSectors(old(Contents()), startAddress, sector)
      {
        access.EraseSector(secAddr);
        secAddr := secAddr + SECTOR_SIZE;
      }
    }

    /** The read at the head of the three stream loops: the next chunk of what follows `from`. */
    method ReadChunk(fp: Stream, ghost from: nat, ghost b: seq<byte>, ghost c: nat) returns (bytesread: nat)
      requires Valid() && fp.Valid() && !fp.eof && |b| >= CHUNK && fp.pos == from + c * CHUNK
      requires fileBuffer[..] == BufferAfter(fp.data[from..][..c * CHUNK], b)
      modifies fp, fileBuffer
      ensures Valid() && Contents() == old(Contents()) && access.Faults() == old(access.Faults())
      ensures fp.Valid() && fp.pos == old(fp.pos) + bytesread && fp.eof == (bytesread < CHUNK)
      ensures bytesread == Min(CHUNK, |fp.data| - old(fp.pos))
      ensures fileBuffer[..] == BufferAfter(fp.data[from..][..c * CHUNK + bytesread], b)
      ensures fileBuffer[..bytesread] == fp.data[old(fp.pos)..fp.pos]
    {
      hide BufferAfter;
      bytesread := fp.Read(fileBuffer, CHUNK);
      SliceOfRest(fp.data, from, c * CHUNK, c * CHUNK + bytesread);
      NextChunk(fp.data[from..], b, c, bytesread);
    }

    /** The programming loop of eeprom_write and flash_restore: the rest of the stream goes into
        the flash from `startAddress` on, in whole pages. */
    method ProgramStream(fp: Stream, startAddress: nat)
      requires Valid() && fp.Valid() && startAddress < INT_LIMIT && |fp.data| < INT_LIMIT
      modifies access.local, access.remote, fileBuffer, fp
      ensures Valid() && access.Faults() == old(access.Faults())
      ensures var p := fp.data[old(fp.pos)..];
        && Contents() == ProgramPages(old(Contents()), startAddress, Image(p, old(fileBuffer[..])), Pages(|p|))
        && fileBuffer[..] == BufferAfter(p, old(fileBuffer[..]))
    {
      hide Pages, ProgramPages, ProgramAt, Image, BufferAfter;
      ghost var p, b, f := fp.data[fp.pos..], fileBuffer[..], Contents();
      ghost var c := 0;
      var eepromAddr := startAddress;
      NothingRead(b);
      NothingProgrammed(f, startAddress, p, b);
      assert p[..0] == [];
      while !fp.eof
        invariant Valid() && access.Faults() == old(access.Faults())
        invariant fp.Valid() && old(fp.pos) <= fp.pos
        invariant !fp.eof ==> fp.pos == old(fp.pos) + c * CHUNK && eepromAddr == startAddress + c * CHUNK
        invariant fileBuffer[..] == BufferAfter(p[..fp.pos - old(fp.pos)], b)
        invariant Pages(fp.pos - old(fp.pos)) <= Pages(|p|)
        invariant Contents() == ProgramPages(f, startAddress, Image(p, b), Pages(fp.pos - old(fp.pos)))
        decreases |fp.data| - fp.pos, !fp.eof
      {
        var bytesread := ReadChunk(fp, old(fp.pos), b, c);
        ChunkPages(c, 0);
        eepromAddr := WriteChunk(eepromAddr, bytesread, p, b, f, startAddress, c);
        ChunkPages(c, bytesread);
        c := c + 1;
      }
      assert p[..|p|] == p;
    }

    /** The page loop over one chunk. */
    method WriteChunk(eepromAddr: nat, bytesread: nat, ghost p: seq<byte>, ghost b: seq<byte>,
                      ghost f: seq<byte>, ghost start: nat, ghost c: nat) returns (addr: nat)
      requires Valid() && |f| > 0 && |b| >= CHUNK
      requires c * CHUNK + bytesread <= |p| && bytesread == Min(CHUNK, |p| - c * CHUNK)
      requires eepromAddr == start + c * CHUNK && start + |p| <= U32_LIMIT
      requires fileBuffer[..] == BufferAfter(p[..c * CHUNK + bytesread], b)
      requires Contents() == ProgramPages(f, start, Image(p, b), c * CHUNK_PAGES)
      modifies access.local, access.remote
      ensures Valid() && access.Faults() == old(access.Faults())
      ensures addr == eepromAddr + Pages(bytesread) * PAGE_SIZE
      ensures c * CHUNK_PAGES + Pages(bytesread) <= Pages(|p|)
      ensures Contents() == ProgramPages(f, start, Image(p, b), c * CHUNK_PAGES + Pages(bytesread))
    {
      hide ProgramPages, ProgramAt, Image, BufferAfter;
      var i := 0;
      ghost var j := 0;
      addr := eepromAddr;
      while i < bytesread
        invariant Valid() && access.Faults() == old(access.Faults())
        invariant i == j * PAGE_SIZE && j <= Pages(bytesread) && c * CHUNK_PAGES + j <= Pages(|p|)
        invariant addr == eepromAddr + i
        invariant Contents() == ProgramPages(f, start, Image(p, b), c * CHUNK_PAGES + j)
      {
        ProgramBufferPage(f, start, p, b, c, bytesread, j);
        ghost var page := fileBuffer[i..i + PAGE_SIZE];
        assert page == BufferAfter(p[..c * CHUNK + bytesread], b)[j * PAGE_SIZE..(j + 1) * PAGE_SIZE];
        access.WritePage(addr, fileBuffer, i);
        i := i + PAGE_SIZE;
        j := j + 1;
        addr := addr + PAGE_SIZE;
      }
      PagesReached(bytesread, j);
    }

    /** sha256_verify: true exactly when the checksum file matches. Hashing the file goes through
        file_buffer. */
    method Sha256Verify(name: seq<byte>) returns (ok: bool)
      requires Valid()
      modifies fileBuffer
      ensures Valid() && Contents() == old(Contents()) && access.Faults() == old(access.Faults())
      ensures ok <==> Matches(digest, files, name)
      ensures ok ==> fileBuffer[..] == BufferAfter(files[name], old(fileBuffer[..]))
    {
      if name + EXTENSION !in files || |files[name + EXTENSION]| < 2 * DIGEST_LENGTH {
        return false;
      }
      var sha256in := ScanHex(files[name + EXTENSION][..2 * DIGEST_LENGTH]);
      if sha256in.BadDigest? || name !in files {
        return false;
      }
      var fp := new Stream(files[name]);
      var context := HashStream(fp);
      return sha256in.bytes == digest(context);
    }

    /** The 8192-byte chunks handed to the hash are the file, in order. */
    method HashStream(fp: Stream) returns (context: seq<byte>)
      requires Valid() && fp.Valid() && fp.pos == 0 && !fp.eof
      modifies fileBuffer, fp
      ensures Valid() && Contents() == old(Contents()) && access.Faults() == old(access.Faults())
      ensures context == fp.data && fileBuffer[..] == BufferAfter(fp.data, old(fileBuffer[..]))
    {
      hide BufferAfter;
      ghost var b := fileBuffer[..];
      ghost var c := 0;
      context := [];
      NothingRead(b);
      while !fp.eof
        invariant Valid() && Contents() == old(Contents()) && access.Faults() == old(access.Faults())
        invariant fp.Valid() && context == fp.data[..fp.pos]
        invariant !fp.eof ==> fp.pos == c * CHUNK
        invariant fileBuffer[..] == BufferAfter(fp.data[..fp.pos], b)
        decreases |fp.data| - fp.pos, !fp.eof
      {
        assert fp.data[0..] == fp.data;
        var bytesread := ReadChunk(fp, 0, b, c);
        context := context + fileBuffer[..bytesread];
        c := c + 1;
      }
      assert fp.data[..|fp.data|] == fp.data;
    }

    /** The first part of eeprom_write: the checks on the file. The stream comes back where the
        header ends, or null when the file is refused. */
    method OpenBitfile(name: seq<byte>, sha256Check: bool, checkPart: bool, stack: Stack) returns (fp: Stream?)
      requires Valid() && StackFrame(stack)
      requires name in files ==> ParseHeader(files[name], stack, text) != Overrun
      modifies fileBuffer
      ensures Valid() && Contents() == old(Contents()) && access.Faults() == old(access.Faults())
      ensures fp != null <==> FileChecks(Setup(), files, name, sha256Check, checkPart, stack)
      ensures fp != null ==>
        && name in files && fresh(fp) && fp.Valid() && fp.data == files[name]
        && fp.data[fp.pos..] == Payload(Setup(), files, name, stack)
        && fileBuffer[..] == HashedBuffer(files, name, sha256Check, old(fileBuffer[..]))
      ensures !sha256Check ==> fileBuffer[..] == old(fileBuffer[..])
    {
      hide BufferAfter, ParseHeader, Matches;
      if sha256Check {
        var ok := Sha256Verify(name);
        if !ok {
          return null;
        }
      }
      if name !in files {
        return null;
      }
      fp := new Stream(files[name]);
      var ret, partName := PrintBitfileHeader(fp, stack, text);
      if ret == -1 {
        return null;
      }
      if checkPart {
        if ANY_PART_MARK !in fpgaPartNumber {
          if partName != fpgaPartNumber {
            return null;
          }
        }
      }
    }

    /** The boot-block part of eeprom_write: on boards that have one it is checked, and repaired if
        that was asked for. */
    method EnsureBoot(fixBoot: bool) returns (r: int)
      requires Valid()
      modifies access.local, access.remote, fileBuffer, pageBuffer
      ensures Valid() && access.Faults() == old(access.Faults())
      ensures Contents() == Booted(Setup(), old(Contents()), fixBoot)
      ensures r == if BootChecked(Setup()) && !BootOk(Setup(), Contents()) then -1 else 0
      ensures fileBuffer[..] == RepairedBuffer(Setup(), old(Contents()), fixBoot, old(fileBuffer[..]))
    {
      hide BootOk, WithBoot, BootPage;
      if fallbackSupport && !efinix {
        r := CheckBoot();
        if r == -1 {
          if fixBoot {
            WriteBoot();
            r := CheckBoot();
          }
        }
        return;
      }
      return 0;
    }

    /** The last part of eeprom_write: room is made for the whole file, then what follows its header
        is programmed. */
    method ProgramFile(fp: Stream, startAddress: nat) returns (r: int)
      requires Valid() && fp.Valid() && startAddress < INT_LIMIT && |fp.data| < INT_LIMIT
      modifies access.local, access.remote, fileBuffer, fp
      ensures Valid() && access.Faults() == old(access.Faults())
      ensures LastSector(|fp.data|) > MaxSectors(Setup(), startAddress) ==>
        r == -1 && Contents() == old(Contents()) && fileBuffer[..] == old(fileBuffer[..])
      ensures LastSector(|fp.data|) <= MaxSectors(Setup(), startAddress) ==>
        var p := fp.data[old(fp.pos)..];
        var erased := EraseSectors(old(Contents()), startAddress, LastSector(|fp.data|) + 1);
        && r == 0
        && Contents() == ProgramPages(erased, startAddress, Image(p, old(fileBuffer[..])), Pages(|p|))
        && fileBuffer[..] == BufferAfter(p, old(fileBuffer[..]))
    {
      hide Image, BufferAfter, ProgramPages, EraseSectors;
      r := StartProgramming(startAddress, |fp.data|);
      if r == -1 {
        return;
      }
      ProgramStream(fp, startAddress);
    }

    method EepromWrite(name: seq<byte>, startAddress: nat, fixBoot: bool, sha256Check: bool, stack: Stack)
      returns (r: int)
      requires Valid() && Defined(Setup(), files, name, startAddress, stack)
      modifies access.local, access.remote, fileBuffer, pageBuffer
      ensures Valid() && access.Faults() == old(access.Faults())
      ensures WriteOutcome(Setup(), files, old(Contents()),
                           WriteCall(name, startAddress, fixBoot, sha256Check, stack), old(fileBuffer[..]),
                           r, Contents(), fileBuffer[..])
    {
      hide WriteOutcome, FileChecks, BootOk, Booted, Image, BufferAfter, ParseHeader, ProgramPages, EraseSectors,
           RepairedBuffer, HashedBuffer, Payload, LastSector, MaxSectors;
      ghost var c := WriteCall(name, startAddress, fixBoot, sha256Check, stack);
      ghost var s, f, b := Setup(), Contents(), fileBuffer[..];
      var fp := OpenBitfile(name, sha256Check, !recover, stack);
      if fp == null {
        RefusedFile(s, files, f, c, b, fileBuffer[..]);
        return -1;
      }
      r := EnsureBoot(fixBoot);
      AcceptedFile(s, files, f, c, b, fileBuffer[..]);
      if r == -1 {
        return;
      }
      r := ProgramFile(fp, startAddress);
    }

    /** One page of the compare loop: 0 when the page in the buffer is the one in the flash. */
    method ComparePage(eepromAddr: nat, bindex: nat) returns (r: int, report: Report)
      requires Valid() && bindex + PAGE_SIZE <= CHUNK && eepromAddr < U32_LIMIT
      modifies access.local, access.remote, pageBuffer
      ensures Valid() && Contents() == old(Contents()) && access.Faults() == old(access.Faults())
      ensures var data, page := fileBuffer[bindex..bindex + PAGE_SIZE], ReadAt(Contents(), eepromAddr, PAGE_SIZE);
        if AgreeUpTo(data, page, PAGE_SIZE) then r == 0 && report == NoError
        else
          && r == -1 && report.ErrorAt? && eepromAddr <= report.addr < eepromAddr + PAGE_SIZE
          && var i := report.addr - eepromAddr;
             AgreeUpTo(data, page, i) && report.expected == data[i] && report.read == page[i] && data[i] != page[i]
    {
      access.ReadPage(eepromAddr, pageBuffer);
      ghost var data, page := fileBuffer[bindex..bindex + PAGE_SIZE], pageBuffer[..];
      for i := 0 to PAGE_SIZE
        invariant AgreeUpTo(data, page, i)
      {
        assert data[i] == fileBuffer[bindex + i] && page[i] == pageBuffer[i];
        if fileBuffer[bindex + i] != pageBuffer[i] {
          return -1, ErrorAt(eepromAddr + i, fileBuffer[bindex + i], pageBuffer[i]);
        }
      }
      return 0, NoError;
    }

    /** The compare loop over one chunk. */
    method CompareChunk(eepromAddr: nat, bytesread: nat, ghost p: seq<byte>, ghost b: seq<byte>,
                        ghost start: nat, ghost c: nat) returns (r: int, report: Report, addr: nat)
      requires Valid() && |b| >= CHUNK
      requires c * CHUNK + bytesread <= |p| && bytesread == Min(CHUNK, |p| - c * CHUNK)
      requires eepromAddr == start + c * CHUNK && start + |p| <= U32_LIMIT
      requires fileBuffer[..] == BufferAfter(p[..c * CHUNK + bytesread], b)
      requires c * CHUNK <= |Image(p, b)| && HoldsUpTo(Contents(), start, Image(p, b), c * CHUNK)
      modifies access.local, access.remote, pageBuffer
      ensures Valid() && Contents() == old(Contents()) && access.Faults() == old(access.Faults())
      ensures if r == 0 then
          && report == NoError && addr == eepromAddr + Pages(bytesread) * PAGE_SIZE
          && c * CHUNK + Pages(bytesread) * PAGE_SIZE <= |Image(p, b)|
          && HoldsUpTo(Contents(), start, Image(p, b), c * CHUNK + Pages(bytesread) * PAGE_SIZE)
        else r == -1 && FirstDifference(Contents(), start, Image(p, b), report)
    {
      hide Image, BufferAfter, HoldsUpTo, AgreeUpTo, ReadAt;
      var bindex := 0;
      ghost var j := 0;
      ghost var f := Contents();
      addr, report := eepromAddr, NoError;
      while bindex < bytesread
        invariant Valid() && Contents() == f && access.Faults() == old(access.Faults())
        invariant bindex == j * PAGE_SIZE && j <= Pages(bytesread)
        invariant addr == eepromAddr + bindex && c * CHUNK + bindex <= |Image(p, b)| && report == NoError
        invariant HoldsUpTo(f, start, Image(p, b), c * CHUNK + bindex)
      {
        BufferPage(p, b, c, bytesread, j);
        ghost var at := c * CHUNK + bindex;
        ghost var data := fileBuffer[bindex..bindex + PAGE_SIZE];
        assert data == Image(p, b)[at..at + PAGE_SIZE];
        r, report := ComparePage(addr, bindex);
        if r == -1 {
          HoldsNext(f, start, Image(p, b), at, report.addr - addr);
          ReadPlace(f, addr, PAGE_SIZE, report.addr - addr);
          return;
        }
        HoldsNext(f, start, Image(p, b), at, PAGE_SIZE);
        bindex := bindex + PAGE_SIZE;
        j := j + 1;
        addr := addr + PAGE_SIZE;
      }
      PagesReached(bytesread, j);
      r := 0;
    }

    /** The compare loop of eeprom_verify: 0 exactly when the flash holds every page of the stream's
        image; otherwise the first difference is reported. */
    method CompareStream(fp: Stream, startAddress: nat) returns (r: int, report: Report)
      requires Valid() && fp.Valid() && startAddress < INT_LIMIT && |fp.data| < INT_LIMIT
      modifies access.local, access.remote, fileBuffer, pageBuffer, fp
      ensures Valid() && Contents() == old(Contents()) && access.Faults() == old(access.Faults())
      ensures var p := fp.data[old(fp.pos)..];
        var image := Image(p, old(fileBuffer[..]));
        if FlashHolds(Contents(), startAddress, image) then
          r == 0 && report == NoError && fileBuffer[..] == BufferAfter(p, old(fileBuffer[..]))
        else r == -1 && FirstDifference(Contents(), startAddress, image, report)
    {
      hide Pages, Image, BufferAfter, HoldsUpTo, FlashHolds, FirstDifference, ReadAt;
      ghost var p, b, f := fp.data[fp.pos..], fileBuffer[..], Contents();
      ghost var c := 0;
      var eepromAddr := startAddress;
      report := NoError;
      HoldsNothing(f, startAddress, Image(p, b));
      NothingRead(b);
      assert p[..0] == [];
      while !fp.eof
        invariant Valid() && Contents() == f && access.Faults() == old(access.Faults())
        invariant fp.Valid() && old(fp.pos) <= fp.pos && report == NoError
        invariant !fp.eof ==> fp.pos == old(fp.pos) + c * CHUNK && eepromAddr == startAddress + c * CHUNK
        invariant fileBuffer[..] == BufferAfter(p[..fp.pos - old(fp.pos)], b)
        invariant Pages(fp.pos - old(fp.pos)) <= Pages(|p|)
        invariant HoldsUpTo(f, startAddress, Image(p, b), Pages(fp.pos - old(fp.pos)) * PAGE_SIZE)
        decreases |fp.data| - fp.pos, !fp.eof
      {
        var bytesread := ReadChunk(fp, old(fp.pos), b, c);
        ChunkPages(c, 0);
        r, report, eepromAddr := CompareChunk(eepromAddr, bytesread, p, b, startAddress, c);
        if r == -1 {
          DifferenceRefutes(f, startAddress, Image(p, b), report);
          return;
        }
        ChunkPages(c, bytesread);
        PagesMonotone(fp.pos - old(fp.pos), |p|);
        c := c + 1;
      }
      assert p[..|p|] == p;
      HoldsAll(f, startAddress, Image(p, b));
      r := 0;
    }

    /** eeprom_verify */
    method EepromVerify(name: seq<byte>, startAddress: nat, stack: Stack) returns (r: int, report: Report)
      requires Valid() && VerifyDefined(Setup(), files, name, startAddress, stack)
      modifies access.local, access.remote, fileBuffer, pageBuffer
      ensures Valid() && Contents() == old(Contents()) && access.Faults() == old(access.Faults())
      ensures VerifyOutcome(Setup(), files, Contents(), name, startAddress, stack, old(fileBuffer[..]),
                            r, report, fileBuffer[..])
    {
      hide BootOk, Image, BufferAfter, ParseHeader, FileChecks, Payload, FlashHolds, FirstDifference;
      ghost var s, f, b := Setup(), Contents(), fileBuffer[..];
      if name !in files {
        return -1, NoError;
      }
      var fp: Stream?;
      var start := startAddress;
      if |files[name]| != FlashSize(flashId) {
        fp := OpenBitfile(name, false, true, stack);
        if fp == null {
          return -1, NoError;
        }
        if fallbackSupport && !efinix {
          var boot := CheckBoot();
          if boot == -1 {
            return -1, NoError;
          }
        }
      } else {
        fp := new Stream(files[name]);
        start := 0;
      }
      assert fp.data[fp.pos..] == Compared(s, files, f, name, stack);
      r, report := CompareStream(fp, start);
    }

    /** flash_erase */
    method FlashErase() returns (r: int)
      requires Valid()
      modifies access.local, access.remote
      ensures Valid() && access.Faults() == old(access.Faults()) && r == 0
      ensures Contents() == EraseSectors(old(Contents()), 0, FlashSize(flashId) / SECTOR_SIZE)
    {
      var maxSectors := FlashSize(flashId) / SECTOR_SIZE;
      EraseRun(0, maxSectors);
      return 0;
    }

    /** The page loop of flash_backup: the file written and the bytes hashed. */
    method ReadFlash(eepromPages: nat) returns (fp: seq<byte>, context: seq<byte>)
      requires Valid() && eepromPages * PAGE_SIZE <= U32_LIMIT
      modifies access.local, access.remote, pageBuffer
      ensures Valid() && Contents() == old(Contents()) && access.Faults() == old(access.Faults())
      ensures fp == context == Dump(Contents(), eepromPages * PAGE_SIZE)
    {
      hide Dump, ReadAt;
      fp, context := [], [];
      var eepromAddr := 0;
      ghost var f := Contents();
      for i := 0 to eepromPages
        invariant Valid() && Contents() == f && access.Faults() == old(access.Faults())
        invariant eepromAddr == i * PAGE_SIZE && fp == context == Dump(f, i * PAGE_SIZE)
      {
        access.ReadPage(eepromAddr, pageBuffer);
        DumpNextPage(f, eepromAddr);
        fp := fp + pageBuffer[..];
        context := context + pageBuffer[..];
        eepromAddr := eepromAddr + PAGE_SIZE;
      }
    }

    /** flash_backup: the whole flash into a new file, its checksum line into the file beside it. */
    method FlashBackup(name: seq<byte>) returns (r: int)
      requires Valid()
      modifies access.local, access.remote, pageBuffer, this`files
      ensures Valid() && Contents() == old(Contents()) && access.Faults() == old(access.Faults())
      ensures r == if FlashSize(flashId) == 0 || name in old(files) then -1 else 0
      ensures files == if r == 0 then BackupFiles(Setup(), old(files), name, Dump(Contents(), FlashSize(flashId)))
                       else old(files)
    {
      hide Dump, Line, FlashSize, BackupFiles;
      FlashSizes(flashId);
      if FlashSize(flashId) == 0 {
        return -1;
      }
      if name in files {
        return -1;
      }
      var fp, context := ReadFlash(FlashSize(flashId) / PAGE_SIZE);
      BackupSteps(Setup(), files, name, fp);
      files := files[name := fp];
      files := files[name + EXTENSION := Line(digest(context), name)];
      return 0;
    }

    /** flash_restore */
    method FlashRestore(name: seq<byte>) returns (r: int)
      requires Valid()
      modifies access.local, access.remote, fileBuffer
      ensures Valid() && access.Faults() == old(access.Faults())
      ensures r == if RestoreAccepted(Setup(), files, name) then 0 else -1
      ensures Contents() ==
        if r == 0 then RestoreResult(Setup(), old(Contents()), files[name], old(fileBuffer[..])) else old(Contents())
    {
      hide Matches, Image, BufferAfter, ProgramPages, EraseSectors;
      if FlashSize(flashId) == 0 {
        return -1;
      }
      var ok := Sha256Verify(name);
      MatchesFiles(digest, files, name);
      if !ok {
        return -1;
      }
      var eepromSize := FlashSize(flashId);
      if |files[name]| > eepromSize {
        return -1;
      }
      if |files[name]| < eepromSize {
        return -1;
      }
      var fp := new Stream(files[name]);
      r := FlashErase();
      assert fp.data[0..] == files[name];
      ProgramStream(fp, 0);
    }
  }
}
