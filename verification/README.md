# A verified model of the mesaflash flash update engine

mesaflash erases, programs, verifies, backs up and restores the SPI NOR flash of Mesa FPGA boards
from a file. It reaches the flash in two ways: by SPI commands on a bus, whose pins one back-end
moves bit by bit, or by LBP16 packets to a board. This project models that stack from the pins up
to the commands of the program and proves that each layer does what the layer above relies on.
Six smaller parts of the program follow, each with a property over all its inputs or runs.

## The layers

- `Bytes`: bytes, masks, shifts and gathered bits on unbounded ints.
- `Flash`: the abstract flash. Erasing sets a sector to 0xFF, programming ANDs a page, addresses
  wrap at the size of the part.
- `NorDevice`, `SpiBus`, `LocalDriver`: the NOR part as an automaton over bytes, the wires to it
  (register pair or GPIO pins), and `eeprom_local.c` as a class that drives them.
- `Lbp16`, `RemoteBoard`, `RemoteDriver`: the packet format, the board that interprets it, and
  `eeprom_remote.c` as a class that talks to it.
- `EepromAccess`: the operations of `spi_eeprom_dev_t`, bound to either driver with one contract.
- `Stdio`, `Bitfile`, `Padding`, `Sidecar`: reading a stream, the bit file header, the pages the
  8192-byte chunks turn into, and the checksum file.
- `Plan`: when each operation of `eeprom.c` succeeds and what it leaves, on values.
- `Eeprom`: `eeprom.c` as a class over the two global buffers, proved against `Plan`.
- `WriteProperties`, `VerifyProperties`: what those outcomes mean.
- `Reference`: the same outcomes described a second time, byte by byte on literal sizes and addresses,
  and proved equal to those of `Plan`.
- `Mesaflash`: the commands that write or restore and then verify in the same process.
- `EthBoards`, `SpiBoards`, `SserialModule`, `Encoder`, `Hostmot2`, `BridgeEeprom`: register
  transfers, word order on an 8-bit SPI port, the descriptor walk of a smart-serial remote, encoder
  unwrapping, I/O port directions, and the 93C66 behind a PCI bridge.

## Main results

- Both drivers implement the same abstract flash, from any idle device to an idle device, with no
  command the device has to ignore (`EepromAccess.Access`). For the local driver this includes the
  GPIO pins: the part receives exactly the bytes sent and the program gets exactly the bytes shown.
- Every byte of the flash after an accepted write is known, also where the run goes round the end of
  the flash (`WriteProperties.WriteLeaves`). Where it does not, the flash holds the payload, then the
  rest of the last page, then 0xFF to the end of the last erased sector, and is otherwise what it
  was except for a repaired boot sector (`WriteProperties.WriteInPlace`).
- After any accepted write to a flash of known size, verifying in the same process succeeds exactly
  when the part name is the board's and the run has overwritten neither the boot block nor other
  bytes of itself; the bytes behind the payload do not matter. A file as large as the flash is the
  exception: it verifies exactly when the whole file, header included, is what its payload, the bytes
  programmed behind it and 0xFF make of the flash (`VerifyProperties.VerifyAfterWrite`). For any bit file
  with the board's part name, on any board with either flag, that ends within the flash and is not as
  large as it, both write and verification succeed (`VerifyProperties.WriteThenVerify`).
- What eeprom_write and eeprom_verify return and leave is also given byte by byte in terms of the file,
  the flash, the board's fields and literal addresses alone, for every call, accepted or refused
  (`Reference.WriteInBytes`, `Reference.VerifyInBytes`). Among the consequences: a good boot sector is
  left alone whatever repair is allowed (`Reference.GoodBootKept`).
- A backup is accepted by a later restore and brings back exactly the flash it was taken from, and
  that flash verifies (`VerifyProperties.BackupRestores`). A backup that was changed is accepted exactly
  if its hash is still the same (`Reference.DamagedBackup`).
- The walk of a smart-serial remote visits, for each address of the pointer table, exactly the record that
  a second, direct reading of the memory finds there (`SserialModule.RecordStored`, `TableStored`).

Four statements one might expect are false of the code; each is proved with its exact condition.

- A file that `start_programming` lets pass need not fit its area. How many sectors too many the guard
  admits depends on the board and the flag: one, since it compares the index of the last sector with a
  number of sectors; two for `--fallback` on a Xilinx board without fallback support, which moves the
  start address and not the limit; none for the user image of a 1Mb Xilinx board, which is held to the
  limit of the fallback area, 0. A write stays in its area exactly when the index and that excess come
  to no more than the limit, and stays in the flash exactly when it does or the area ends before the
  flash (`SectorAccounting`, every board, either flag, every size). Otherwise a fallback write erases
  the first sector of the user image, and one to the end of the flash goes round and erases sector 0
  (`OverrunErases`, `FallbackWithoutSupport`); what the flash then holds, and when the boot check
  still passes, is `UserWriteAtLimit`.
- On Xilinx boards with a 1Mb part, and only there, the fallback and the user image have the same
  start address (`SharedStartAddress`).
- What is programmed and compared depends on what `file_buffer` held before, exactly when the
  payload is shorter than a chunk and does not end on a page boundary (`ImageIndependence`).
- A write that succeeds need not verify: with `recover` set it skips the part name, which
  verification never does, and a file as large as the flash is verified as a dump of all of it
  (`VerifyAfterWrite`). Such a file is let pass exactly on Xilinx boards with one image and on Efinix
  boards with a 1Mb part (`WholeFlashPasses`); on the former, without `--fallback`, no bit file of that
  size verifies whose payload does not start like a bit file (`WholeFlashFails`).

## Assumptions about the devices

- NOR part: the command set of `hostmot2_def.h:96-101`. A frame takes effect when chip select rises
  on a byte boundary. Program and erase need the write-enable latch, keep the part busy for a finite
  number of status reads, and clear the latch. Address bits above the size are not decoded. Mode 0
  on the pins: input is taken when the clock rises, output moves when it falls.
- LBP16 board: commands of a datagram run in order and each flash command is done before the next
  one is looked at; 0x5A03 in the write-enable register enables the next program or erase; a datagram
  with reads is answered by one datagram of the bytes read. Packets are neither lost nor split.
- Smart-serial remote: a command keeps its register non-zero for a finite number of polls; the upper
  bytes of the data word may hold anything after a byte read.
- 93C66: one start bit, a two-bit code, eight address bits, a dummy zero, then the word.
- The uninitialised stack buffers of the header parser and its callers hold anything and are a
  parameter; a header that would overrun them, which C gives no meaning to, is excluded by `Defined`.

## Model

| member | source | states |
|---|---|---|
| Flash.EraseSectorsExact | eeprom.c:146-156 | the erase loop sets exactly its run of sectors to 0xFF, also round the end of the flash |
| Flash.ProgramPagesExact | eeprom.c:320-331 | the page loop ANDs its pages onto exactly their own run, over up to two rounds of the flash |
| Flash.ProgramWraps | eeprom_local.c:320-324 | sending only 24 address bits programs the same page |
| Flash.EraseWraps | eeprom_local.c:320-324 | sending only 24 address bits erases the same sector |
| Flash.ReadBytes | eeprom_local.c:363-373 | byte by byte and at any address: the bytes read |
| Flash.EraseBytes | eeprom_local.c:391-398 | the bytes of the address's own 64 KiB become 0xFF, no other |
| Flash.ProgramBytes | eeprom_local.c:375-389 | the bytes of the address's own 256 are ANDed with those sent, wrapping there |
| Bytes.AndBits | eeprom_local.c:375-389 | ANDing works bit by bit |
| Bytes.ByteBits | eeprom_local.c:182-195 | the bits of a byte by their weights |
| Bytes.MaskTest | eeprom_local.c:182-195 | the falling mask tests the bits of a byte from the top down |
| Bytes.GatherStep | eeprom_local.c:197-210 | ORing the falling mask gathers bits into a number |
| Bytes.BitsRoundTrip | eeprom_local.c:182-210 | the eight bits sent make up the byte again |
| NorDevice.ReadFrameOut | eeprom_local.c:363-373 | a read frame shows consecutive bytes of the memory from the address sent |
| NorDevice.ProgramFrame | eeprom_local.c:380-387 | an enabled page frame of 256 bytes is the abstract page program |
| NorDevice.EraseFrame | eeprom_local.c:393-396 | an enabled erase frame is the abstract sector erase |
| NorDevice.CommandSet | hostmot2_def.h:96-101 | the commands by their bytes: status, id, write enable, and what is refused without it |
| NorDevice.BusyPart | eeprom_local.c:353-359 | a busy part shows it, counts the status reads and refuses the rest |
| SpiBus.ClockRises | eeprom_local.c:128-133 | raising the clock of a selected part hands it the data pin's bit |
| SpiBus.ClockFalls | eeprom_local.c:135-140 | lowering the clock moves the part to its next output bit or byte |
| SpiBus.PinPlaces | eeprom_local.c:100-151 | the register bits of the pins and the order of a byte's bits |
| LocalDriver.Driver.constructor | eeprom_local.c:435-485 | opening parks the pins and leaves the part as it was |
| LocalDriver.Driver.SetCsHigh | eeprom_local.c:100-105 | chip select high ends a frame; the shadow register stays the last word written |
| LocalDriver.Driver.SetCsLow | eeprom_local.c:107-112 | chip select low opens a frame |
| LocalDriver.Driver.SetDin | eeprom_local.c:114-126 | the data pin moves and nothing else does |
| LocalDriver.Driver.PulseClock | eeprom_local.c:192-193 | one clock pulse moves one bit each way and returns the register to its value |
| LocalDriver.Driver.GetBit | eeprom_local.c:142-151 | the input bit is the part's output |
| LocalDriver.Driver.Prefix | eeprom_local.c:153-158 | a new frame is open, clock low |
| LocalDriver.Driver.Suffix | eeprom_local.c:160-163 | the frame is executed, pins other than SPI unchanged |
| LocalDriver.Driver.SendByte | eeprom_local.c:79-84 | the part receives exactly the byte sent, over either back-end |
| LocalDriver.Driver.SendBits | eeprom_local.c:182-195 | eight pulses on the GPIO pins deliver exactly the byte |
| LocalDriver.Driver.RecvByte | eeprom_local.c:86-94 | the byte returned is the byte the part was showing |
| LocalDriver.Driver.RecvBits | eeprom_local.c:197-210 | eight pulses on the GPIO pins return exactly the byte shown |
| LocalDriver.Driver.SendAddress | eeprom_local.c:320-324 | three address bytes, most significant first |
| LocalDriver.Driver.WriteEnable | eeprom_local.c:326-330 | the latch is set, and only that |
| LocalDriver.Driver.ReadStatus | eeprom_local.c:332-340 | the status byte; a busy period comes one poll closer to its end |
| LocalDriver.Driver.ReadFlashId | eeprom_local.c:342-351 | the id byte, the part unchanged |
| LocalDriver.Driver.WaitForWrite | eeprom_local.c:353-359 | polling ends, with the busy period over and its result in the memory |
| LocalDriver.Driver.ReadPage | eeprom_local.c:363-373 | the buffer is the page read; the whole device state is unchanged |
| LocalDriver.Driver.WritePage | eeprom_local.c:375-389 | exactly the abstract page program, one write enable used, back to idle without a fault |
| LocalDriver.Driver.EraseSector | eeprom_local.c:391-398 | exactly the abstract sector erase, one write enable used, back to idle without a fault |
| Lbp16.ParseOfEncode | lbp16.h:48-97 | a datagram decodes to exactly the commands it was built from |
| Lbp16.EncodeOfParse | lbp16.h:48-97 | and in no other way |
| Lbp16.InitPacket4 | lbp16.h:163-168 | command and address, low bytes first, the rest of the struct untouched |
| Lbp16.InitPacket6 | lbp16.h:177-184 | the same with a 16-bit datum |
| Lbp16.InitPacket8 | lbp16.h:186-195 | the same with a 32-bit datum |
| RemoteBoard.DeliverCommands | eeprom_remote.c:38-82 | a datagram has the effect of its commands, in order |
| RemoteDriver.SetAddressDatagram | eeprom_remote.c:43-46 | the address packet sets the flash address register |
| RemoteDriver.ReadPageDatagram | eeprom_remote.c:44-48 | the read packet is answered by the page at that address |
| RemoteDriver.WriteDatagram | eeprom_remote.c:60-63 | enable and page in one datagram program that page and use the enable up |
| RemoteDriver.EraseDatagram | eeprom_remote.c:77-79 | enable and erase in one datagram erase the sector and use the enable up |
| RemoteDriver.PagePacket | eeprom_remote.c:60-62 | the 266-byte struct is the encoding of the two commands |
| RemoteDriver.ErasePacket | eeprom_remote.c:77-78 | the 14-byte struct is the encoding of the two commands |
| RemoteDriver.PacketBytes | lbp16.h:48-97 | the driver's packets byte by byte |
| RemoteDriver.LatchNeeded | eeprom_remote.c:60-63 | without the enable a page or erase packet is refused |
| RemoteDriver.Driver.ReadFlashRegister | eeprom_remote.c:64-65 | the four bytes of the address register, or of the id register as at eth_boards.c:124; the board unchanged |
| RemoteDriver.Driver.ReadPage | eeprom_remote.c:38-49 | the buffer is the page read |
| RemoteDriver.Driver.WritePage | eeprom_remote.c:51-66 | exactly the abstract page program, without a fault |
| RemoteDriver.Driver.EraseSector | eeprom_remote.c:68-82 | exactly the abstract sector erase, without a fault |
| EepromAccess.Access.ReadPage | eeprom.h:40-51 | whichever driver is bound: the page, the flash unchanged, no faults |
| EepromAccess.Access.WritePage | eeprom.h:40-51 | whichever driver is bound: the abstract page program, no faults |
| EepromAccess.Access.EraseSector | eeprom.h:40-51 | whichever driver is bound: the abstract sector erase, no faults |
| EepromAccess.Access.ParkChipSelect | eeprom_local.c:400-411 | an idle flash does not notice chip select being driven high |
| EepromAccess.Access.BoundFlash | eeprom.h:40-51 | the flash is the part behind the driver that is bound |
| Stdio.Stream.Read | eeprom.c:321-322 | a read takes the next bytes; only a short one sets end-of-file |
| Bitfile.PrintBitfileHeader | bitfile.c:25-165 | length, part name and stream position are those of the parser function |
| Bitfile.ReadXilinxFields | bitfile.c:45-90 | the five fields as read through the one 256-byte buffer |
| Bitfile.CopyString | bitfile.c:62 | the C string at the start of the buffer |
| Bitfile.ReadNextField | bitfile.c:54-58 | a field the file holds is taken whole, whatever was in the buffer |
| Bitfile.HeaderRoundTrip | bitfile.c:33-93 | for every header that fits, the parser returns its length, its part name, and the stream at the payload |
| Bitfile.HeaderBytes | bitfile.c:33-93 | the format of such a header byte by byte |
| Bitfile.OtherHeaders | bitfile.c:33-165 | short files and files of no known start are refused; a first field without the tag 'a' behind it ends the header |
| Padding.NextChunk | eeprom.c:322 | a chunk overwrites the start of the buffer and leaves the stale rest |
| Padding.BufferPage | eeprom.c:323-328 | every page taken from the buffer is a page of the image, the last one padded with the bytes one chunk back |
| Padding.ProgramBufferPage | eeprom.c:324-328 | one pass of the page loop programs the image's next page |
| Padding.ImageIndependence | eeprom.c:321-331 | the image does not depend on the buffer's old contents if and only if n >= 8192 or n is a multiple of 256 |
| Padding.ImageStable | eeprom.c:396-411 | a second pass through the buffer left by the first sees the same image |
| Sidecar.HexRoundTrip | eeprom.c:199-204 | printing bytes in hex and scanning the pairs gives the bytes back |
| Sidecar.HexPlaces | eeprom.c:497-516 | two lower-case digits for each byte, upper half first |
| Sidecar.PairScans | eeprom.c:199-204 | two digits in either case scan as their number |
| Sidecar.OthersDoNotScan | eeprom.c:199-204 | what starts with no digit, sign or white space is no number |
| Sidecar.MatchesBytes | eeprom.c:166-248 | the check passes if and only if both files are there and the 32 pairs scan as the hash |
| Sidecar.HexMatches | eeprom.c:236-245 | a checksum file that starts with the digits of a hash is accepted if and only if it is the file's hash |
| Sidecar.NameBehindSlash | eeprom.c:497-516 | the name in the checksum line is what is behind the last slash |
| Sidecar.LineMatches | eeprom.c:497-516 | the line written for a file is accepted for that file |
| Plan.FlashSizes | eeprom.c:64-98 | flash sizes are whole sectors and twice the user space |
| Plan.BootBlockJumpsToUserImage | eeprom.c:76-98 | the prepared boot block jumps to where a user image is written |
| Plan.HoldsNext | eeprom.c:399-408 | comparing a page extends what is known to agree, up to a first difference |
| Plan.DifferenceRefutes | eeprom.c:402-405 | a reported difference means the flash does not hold the image |
| Eeprom.Engine.constructor | eth_boards.c:121-132 | a board is opened with its boot block prepared for its flash |
| Eeprom.Engine.CheckBoot | eeprom.c:100-110 | 0 exactly when page 0 starts with the boot block |
| Eeprom.Engine.WriteBoot | eeprom.c:112-119 | sector 0 is the boot block, zeros to the end of the page, then 0xFF |
| Eeprom.Engine.StartProgramming | eeprom.c:121-164 | refuses by the guard as it is, and otherwise erases last index + 1 sectors |
| Eeprom.Engine.EraseRun | eeprom.c:151-156 | the erase loop |
| Eeprom.Engine.ProgramStream | eeprom.c:320-331 | the rest of the stream is programmed as its image, for any old buffer |
| Eeprom.Engine.WriteChunk | eeprom.c:322-328 | one chunk of it |
| Eeprom.Engine.Sha256Verify | eeprom.c:166-248 | true exactly when the first 64 characters of the sidecar are the file's hash |
| Eeprom.Engine.HashStream | eeprom.c:225-231 | the chunks hashed are the file in order |
| Eeprom.Engine.OpenBitfile | eeprom.c:259-291 | a file is taken exactly when its checks pass, with the stream at its payload |
| Eeprom.Engine.EnsureBoot | eeprom.c:292-310 | the boot block is checked, and repaired when allowed |
| Eeprom.Engine.EepromWrite | eeprom.c:250-342 | 0 exactly when accepted, with the flash and buffer it then leaves; a refused call changes at most a bad boot block |
| Eeprom.Engine.ComparePage | eeprom.c:400-406 | one page compared, with the first difference |
| Eeprom.Engine.CompareStream | eeprom.c:395-411 | 0 exactly when the flash holds the image, else the first difference is reported |
| Eeprom.Engine.EepromVerify | eeprom.c:344-426 | 0 exactly when the checks pass and the flash holds the image; the flash is unchanged |
| Eeprom.Engine.ReadFlash | eeprom.c:474-493 | file written and bytes hashed are both the flash from 0 on |
| Eeprom.Engine.FlashBackup | eeprom.c:428-520 | the flash goes into a new file and its checksum line beside it |
| Eeprom.Engine.FlashErase | eeprom.c:522-548 | every sector of the flash is erased |
| Eeprom.Engine.FlashRestore | eeprom.c:550-630 | 0 exactly for a checked file of the flash's size, which is then programmed |
| WriteProperties.SectorAccounting | eeprom.c:127-156 | for every board, flag and size: how far the erased run reaches, and when exactly it stays in its area and in the flash |
| WriteProperties.AreasDisjoint | eeprom.c:88-98 | areas of the two images and the boot sector do not overlap |
| WriteProperties.SharedStartAddress | anyio.c:254-263 | both images start at one address exactly on a Xilinx board with a 1Mb part |
| WriteProperties.OverrunErases | eeprom.c:141-156 | a run let pass that leaves its area erases the other image's first sector, or sector 0 |
| WriteProperties.FallbackWithoutSupport | anyio.c:254-263 | --fallback on a Xilinx board without fallback support: one sector below the limit already erases the board's own first sector |
| WriteProperties.BootRepairHolds | eeprom.c:294-301 | a repaired boot sector always passes the check |
| WriteProperties.BootedFrame | eeprom.c:293-310 | the boot check changes nothing behind the boot sector |
| WriteProperties.EraseThenProgram | eeprom.c:312-331 | programming into sectors erased before is exact, 0xFF behind, frame unchanged; a second round ANDs onto the first |
| WriteProperties.WriteLeaves | eeprom.c:293-331 | every byte of the flash after any accepted write from a sector boundary |
| WriteProperties.WriteInPlace | eeprom.c:293-331 | payload, padding, 0xFF and frame of an accepted write that ends within the flash |
| VerifyProperties.WholeFlashHolds | eeprom.c:386-408 | a file of the flash's size compares equal exactly when it is the flash |
| VerifyProperties.HoldsWritten | eeprom.c:320-331 | the flash holds an image written to it if and only if the image agrees with itself where it comes round |
| VerifyProperties.BootAfterWrite | eeprom.c:376-385 | the boot check passes after a write if and only if the run ended within the flash or put the boot block there |
| VerifyProperties.UserWriteAtLimit | eeprom.c:141-331 | the accepted user write at the limit: sector 0 is the end of the image and 0xFF, and unless that is the boot block no verification succeeds |
| VerifyProperties.VerifyAfterWrite | eeprom.c:250-426 | verification after a sound write succeeds if and only if the part matches, the boot block survives and no byte overwrites a different one; for a file as large as the flash, if and only if the file is its own image and 0xFF |
| VerifyProperties.WholeFlashWritten | eeprom.c:293-331 | the flash equals such a file after writing it if and only if, place by place of the run, the file has the byte of the image, and 0xFF behind it |
| VerifyProperties.WholeFlashPasses | eeprom.c:127-145 | which boards let a file as large as the flash pass |
| VerifyProperties.WholeFlashFails | eeprom.c:364-408 | without --fallback, a Xilinx board with one image accepts a bit file as large as the flash and then refuses to verify it, unless the payload starts like a bit file |
| VerifyProperties.BitfileAccepted | eeprom.c:250-342 | a bit file is accepted if and only if its checksum and part name are right where they are checked, the boot block is there or may be repaired, and the guard lets its size pass |
| VerifyProperties.PartNames | eeprom.c:283-291 | a board that takes one part accepts and verifies bit files for no other, but for a recovering write and a file as large as the flash |
| VerifyProperties.BitfileDefined | eeprom.c:250-291 | every bit file below 2 GiB is within what the contracts of write and verify cover |
| VerifyProperties.BitfileWriteSound | eeprom.c:250-342 | every accepted write of a bit file starts on a sector of the flash, behind the boot sector, and its header reads the same again |
| VerifyProperties.WriteThenVerify | eeprom.c:250-426 | every such bit file for the board's part that the guard lets pass, that ends within the flash and is not as large as it, is accepted, its payload is in the flash, and it verifies, whatever buffer and stack held |
| VerifyProperties.RestoreExact | eeprom.c:595-619 | an accepted restore leaves exactly the file, from any flash and buffer |
| VerifyProperties.BackupRestores | eeprom.c:428-630 | a backup is accepted later, brings the flash back, and verifies |
| Reference.PartSizes | eeprom.c:64-98 | sizes and user spaces by id, doubling from part to part |
| Reference.StartAddresses | anyio.c:254-263 | where the two images start |
| Reference.GuardInBytes | eeprom.c:127-144 | the guard lets a file pass if and only if it has at most so many bytes |
| Reference.EraseInBytes | eeprom.c:146-156 | exactly the sectors a file reaches into are erased, the first in any case |
| Reference.BootInBytes | eeprom.c:293-310 | every byte after the boot check and repair |
| Reference.BootJump | eeprom.c:76-98 | the prepared boot block jumps to the user image and is otherwise unchanged |
| Reference.AcceptedInBytes | eeprom.c:250-311 | when a write is accepted |
| Reference.StagedInBytes | eeprom.c:112-119 | what the buffer holds when programming starts |
| Reference.WriteInBytes | eeprom.c:250-342 | return value and every byte of the flash after any write from a sector boundary, accepted or refused |
| Reference.GoodBootKept | eeprom.c:293-310 | with the boot block in place nothing outside the sectors erased changes, and a refused write changes nothing |
| Reference.VerifyInBytes | eeprom.c:344-426 | return value and report of any verification |
| Reference.WholeFileAgrees | eeprom.c:386-411 | for a file as large as the flash that comes to equality |
| Reference.BackupInBytes | eeprom.c:474-516 | the two files a backup leaves |
| Reference.RestoreInBytes | eeprom.c:550-600 | when a restore is accepted |
| Reference.DamagedBackup | eeprom.c:232-245 | a changed backup is accepted if and only if its hash is the same |
| Reference.EraseAllInBytes | eeprom.c:522-548 | erasing leaves nothing but 0xFF |
| Mesaflash.WriteFlash | anyio.c:247-269 | the image goes to the board's start or fallback address |
| Mesaflash.VerifyFlash | anyio.c:271-293 | verification uses the same address |
| Mesaflash.WriteAndVerify | mesaflash.c:555-561 | the command succeeds exactly when the write is accepted and its result verifies, and when that is |
| Mesaflash.RestoreAndVerify | mesaflash.c:578-584 | the command succeeds exactly for a checked dump of a flash of known size, and the flash is then that dump |
| EthBoards.Lbp16Write | lbp16.c:68-83 | the frame sent is header and data out of the static packet |
| EthBoards.EthWrite | eth_boards.c:111-119 | a request too large to count is refused; one accepted fits the static packet |
| EthBoards.Lbp16Read | lbp16.c:50-66 | the request sent, and the answer copied to the caller's buffer, which otherwise gets what the local buffer held |
| EthBoards.EthRead | eth_boards.c:101-109 | a request too large to count is refused and leaves the buffer alone |
| EthBoards.TransferWord | lbp16.h:78-93 | the command word decodes to direction, space, width, increment and count |
| EthBoards.RequestBytes | lbp16.h:78-93 | the request headers byte by byte |
| EthBoards.WriteFrameParses | lbp16.c:68-83 | the frame decodes to the one command meant if and only if the size is a multiple of 4 |
| EthBoards.ReadFrameParses | lbp16.c:50-58 | the request decodes to the one read meant |
| SpiBoards.ReorderBuffer | spi_boards.c:122-135 | the first words have their bytes reversed in place, the rest is untouched |
| SpiBoards.SwapTwice | spi_boards.c:122-135 | reordering is its own inverse |
| SpiBoards.SwapPlaces | spi_boards.c:122-135 | byte j of a word goes to its mirrored place, the rest stays |
| SpiBoards.XorSwap | spi_boards.c:127-132 | three exclusive-or assignments exchange two values |
| SpiBoards.SpiRead | spi_boards.c:137-165 | the same words arrive in 8-bit and in 32-bit mode, for every answer of the board; a failed transfer is returned and leaves the buffer alone |
| SpiBoards.SpiWrite | spi_boards.c:167-188 | the same bytes are put on the wire in 8-bit and in 32-bit mode; a failed transfer is returned |
| SpiBoards.CommandDecodes | spi_boards.c:63-71 | the command word decodes back, its count if and only if it is at most 127 |
| SpiBoards.CommandBytes | spi_boards.c:63-71 | the command word byte by byte in wire order |
| SpiBoards.ReadRequest | spi_boards.c:137-165 | what a read sends, and which words of the answer arrive |
| SserialModule.Walker.WaitComplete | sserial_module.c:89-91 | polling ends with the command complete |
| SserialModule.Walker.ReadRemote8 | sserial_module.c:113-121 | the byte of the remote's memory |
| SserialModule.Walker.ReadRemote16 | sserial_module.c:123-130 | the little-endian word |
| SserialModule.Walker.ReadRemoteBytes | sserial_module.c:208-221 | as many bytes as asked for |
| SserialModule.Walker.ReadRemoteString | sserial_module.c:208-221 | with size -1, bytes up to and including the NUL |
| SserialModule.Walker.ReadRecord | sserial_module.c:422-486 | a record read through the structs and string buffers is the record stored |
| SserialModule.Walker.Walk | sserial_module.c:413-488 | every stored record is visited once, in order; the zero pointer ends the walk; the software modes are the mode records of type 1 |
| SserialModule.DataLayout | sserial_module.c:425-427 | fields, unit and name of a data record lie where the walk reads them |
| SserialModule.RecordStored | sserial_module.c:420-483 | a record is stored at an address if and only if it is what the memory reads as there, field by field |
| SserialModule.TableStored | sserial_module.c:413-420 | what the walk requires and visits, said on the memory alone |
| SserialModule.WalkedModes | sserial_module.c:477-483 | the software modes are those of the addresses with 0xB0 and mode type 1, in order, with index and name |
| Encoder.Encoder.Read | encoder_module.c:93-146 | the new state, position and velocity of one reading |
| Encoder.RunCongruent | encoder_module.c:115-123 | over any run the running count agrees with the last counter value modulo 65536 |
| Encoder.RunHalves | encoder_module.c:116-118 | over any run count and timestamp are the halves of the last register word, 0 at first |
| Encoder.StepTracks | encoder_module.c:116-123 | a step recovers a movement if and only if it is smaller than 32768, or just that and does not wrap |
| Encoder.RunTracks | encoder_module.c:115-123 | with movements below 32768 the running count is the true position |
| Encoder.ElapsedCongruent | encoder_module.c:125-130 | the elapsed clocks lie in [0, 65535] and are the timestamp difference |
| Hostmot2.HostMot2.FindModule | hostmot2.c:52-60 | the first module with the tag, or none |
| Hostmot2.HostMot2.SetPinDirection | hostmot2.c:93-118 | one direction bit changes, or nothing |
| Hostmot2.HostMot2.EnableAllModuleOutputs | hostmot2.c:120-138 | exactly the direction bits of output pins are set, all sources are ones, the rest is unchanged |
| Hostmot2.HostMot2.SafeIo | hostmot2.c:140-150 | both register banks are zero and nothing else changed |
| Hostmot2.NextPin | hostmot2.c:132-137 | one pin's bit joins those set |
| Hostmot2.OutputsEnabled | hostmot2.c:112-135 | the outcome on the registers by their addresses and bits |
| Hostmot2.OthersKept | hostmot2.c:112-135 | no register outside the two banks changes |
| BridgeEeprom.Bridge.SetLine | pci_boards.c:302-348 | one control bit moves, read back and written, and no other |
| BridgeEeprom.Bridge.SendBits | pci_boards.c:369-390 | the part takes in exactly the bits of the value |
| BridgeEeprom.Bridge.ReceiveWord | pci_boards.c:394-402 | the sixteen bits shown are the addressed word |
| BridgeEeprom.Bridge.ReadEepromWord | pci_boards.c:360-407 | the stored word for every content and address; a high dummy bit reads as 0 and leaves the part selected |
| BridgeEeprom.DataBit | pci_boards.c:396-402 | behind a read frame the part shows the word bit by bit |
| BridgeEeprom.LinePlaces | pci_boards.c:302-348 | the register bits of the lines |
| BridgeEeprom.FrameBits | pci_boards.c:369-390 | the read frame bit by bit |
| BridgeEeprom.ShownBehindFrame | pci_boards.c:391-402 | dummy bit and word behind it |

## Left out

- Sockets, serial ports, ioctl, port I/O, PCI access, sleeps, time measurements and all printing; the
  serial back-end's resending after a partial write is not part of this model.
- LocalDriver.Driver.SendByte: does not model the data-available polling of the byte-wide back-ends,
  which gives up after 5000 reads: data is taken to arrive.
- LocalDriver.Driver.RecvByte: the same.
- LocalDriver.Driver.constructor: does not model the GPIO address and status registers of the
  XIO2001, which are written once as that back-end opens.
- Eeprom.Engine.constructor: the flash id is a parameter; reading it is LocalDriver.Driver.ReadFlashId
  and RemoteDriver.Driver.ReadFlashRegister.
- SHA-256 itself: the hash is any function of the bytes fed to it in order.
- Bitfile.PrintBitfileHeader: does not model the Efinix text header; what that branch makes of a file
  is a parameter of the parser, of which only that it leaves the stream within the file is used.
- Eeprom.Engine.FlashBackup: does not model directories and automatic names, open failures other than
  a missing file, and names longer than the path buffers.
- Eeprom.Engine.Sha256Verify: the byte behind the 64 characters, which the program leaves unset, is
  taken to end a number; "0x" with no digit behind it is no number, as the C standard has it, though
  some libraries scan it as 0.
- Files of 2 GiB and more, whose size does not fit the program's int.
- BOARD_FLASH_NONE, for which no operations are bound.
- SserialModule.Walker.Walk: does not model what the walk does besides with the records named SwRevision,
  HwRevision and NV..., whose values it fetches and prints; nor the second pass per software mode, and
  the channel and interface set-up around the walk.
- Encoder.Encoder.Read: position and velocity are reals, and the running count does not overflow.
- Hostmot2.HostMot2.EnableAllModuleOutputs: requires at most 64 ports, since from there on the direction
  bank runs into the source bank.
- hm2_set_pin_source, which reads registers that cannot be read back.
- FPGA reload sequences, board scan tables, option parsing, pin names and XML output.
