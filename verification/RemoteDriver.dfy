/** eeprom_remote.c: the flash of an Ethernet or serial board, reached through LBP16 packets. */
module RemoteDriver {
  import opened Bytes
  import opened Flash
  import opened Lbp16
  import opened RemoteBoard

  function SetAddress(addr: nat): Command {
    Command(CmdWriteFpgaFlash(1), FLASH_ADDR_REG, Le32(addr))
  }

  function EnableWrite(): Command {
    Command(CmdWriteCommCtrl(1), COMM_CTRL_WRITE_ENA_REG, Le16(WRITE_ENABLE_KEY))
  }

  function WriteData(data: seq<byte>): Command { Command(CmdWriteFpgaFlash(64), FLASH_DATA_REG, data) }

  function EraseCommand(): Command { Command(CmdWriteFpgaFlash(1), FLASH_SEC_ERASE_REG, Le32(0)) }

  function ReadRegister(reg: nat, count: nat): Command { Command(CmdReadFpgaFlash(count), reg, []) }

  /** The board holding address `addr`, latch clear, nothing to receive. */
  ghost function At(b: Board, addr: nat): Board { b.(addrReg := addr) }

  lemma SetAddressDatagram(b: Board, addr: nat)
    requires |b.mem| > 0 && addr < U32_LIMIT
    ensures Deliver(b, Encode(SetAddress(addr))) == At(b, addr)
  {
    hide Parse;
    var cs := [SetAddress(addr)];
    Le32RoundTrip(addr);
    assert EncodeAll(cs[1..]) == [];
    assert EncodeAll(cs) == Encode(cs[0]);
    DeliverCommands(b, cs);
  }

  lemma ReadDatagram(b: Board, reg: nat, count: nat)
    requires |b.mem| > 0 && reg < 0x1_0000 && count < 0x80
    ensures var c := ReadRegister(reg, count);
      WellFormed(c) && !IsWrite(c.word) &&
      Deliver(b, Encode(c)) == if Answer(b, c) == [] then b else b.(replies := b.replies + [Answer(b, c)])
  {
    var c := ReadRegister(reg, count);
    var cs := [c];
    assert EncodeAll(cs[1..]) == [];
    assert EncodeAll(cs) == Encode(c);
    DeliverCommands(b, cs);
    assert [] + Answer(b, c) == Answer(b, c);
  }

  lemma ReadPageDatagram(b: Board)
    requires |b.mem| > 0
    ensures Deliver(b, Encode(ReadRegister(FLASH_DATA_REG, 64))) ==
            b.(replies := b.replies + [ReadAt(b.mem, b.addrReg, PAGE_SIZE)])
  {
    ReadDatagram(b, FLASH_DATA_REG, 64);
    PageAnswer(b);
  }

  lemma PageAnswer(b: Board)
    requires |b.mem| > 0
    ensures WellFormed(ReadRegister(FLASH_DATA_REG, 64)) && !IsWrite(CmdReadFpgaFlash(64))
    ensures Answer(b, ReadRegister(FLASH_DATA_REG, 64)) == ReadAt(b.mem, b.addrReg, PAGE_SIZE) != []
  {
    var word := CmdReadFpgaFlash(64);
    assert word == 0x4E40;
    assert Count(word) == 64;
    assert |ReadAt(b.mem, b.addrReg, PAGE_SIZE)| == PAGE_SIZE;
  }

  lemma Enabling(b: Board)
    requires |b.mem| > 0
    ensures WellFormed(EnableWrite()) && IsWrite(EnableWrite().word)
    ensures Written(b, EnableWrite()) == b.(enabled := true, log := b.log + [WriteEnabled])
  {
    Le16RoundTrip(WRITE_ENABLE_KEY);
  }

  lemma Programming(b: Board, data: seq<byte>)
    requires |b.mem| > 0 && b.enabled && |data| == PAGE_SIZE
    ensures WellFormed(WriteData(data)) && IsWrite(WriteData(data).word)
    ensures Written(b, WriteData(data)) ==
            b.(mem := ProgramAt(b.mem, b.addrReg, data), enabled := false,
               log := b.log + [Programmed(b.addrReg, data)])
  {
  }

  lemma Erasing(b: Board)
    requires |b.mem| > 0 && b.enabled
    ensures WellFormed(EraseCommand()) && IsWrite(EraseCommand().word)
    ensures Written(b, EraseCommand()) ==
            b.(mem := EraseAt(b.mem, b.addrReg), enabled := false, log := b.log + [Erased(b.addrReg)])
  {
  }

  /** Two writes in one datagram take effect one after the other. */
  lemma DeliverTwoWrites(b: Board, c1: Command, c2: Command)
    requires |b.mem| > 0 && WellFormed(c1) && WellFormed(c2) && IsWrite(c1.word) && IsWrite(c2.word)
    requires |Written(b, c1).mem| > 0
    ensures Deliver(b, Encode(c1) + Encode(c2)) == Written(Written(b, c1), c2)
  {
    var cs := [c1, c2];
    assert cs[1..] == [c2] && [c2][1..] == [];
    assert EncodeAll([c2]) == Encode(c2);
    DeliverCommands(b, cs);
    assert Interpret(b, cs, []) == Interpret(Written(b, c1), [c2], []);
    assert Interpret(Written(b, c1), [c2], []) == (Written(Written(b, c1), c2), []);
  }

  /** Enable and page data travel in one datagram: the latch is used by that page alone. */
  lemma WriteDatagram(b: Board, data: seq<byte>)
    requires |b.mem| > 0 && |data| == PAGE_SIZE
    ensures Deliver(b, Encode(EnableWrite()) + Encode(WriteData(data))) ==
            b.(mem := ProgramAt(b.mem, b.addrReg, data), enabled := false,
               log := b.log + [WriteEnabled, Programmed(b.addrReg, data)])
  {
    Enabling(b);
    Programming(Written(b, EnableWrite()), data);
    DeliverTwoWrites(b, EnableWrite(), WriteData(data));
    assert b.log + [WriteEnabled] + [Programmed(b.addrReg, data)] ==
           b.log + [WriteEnabled, Programmed(b.addrReg, data)];
  }

  lemma EraseDatagram(b: Board)
    requires |b.mem| > 0
    ensures Deliver(b, Encode(EnableWrite()) + Encode(EraseCommand())) ==
            b.(mem := EraseAt(b.mem, b.addrReg), enabled := false,
               log := b.log + [WriteEnabled, Erased(b.addrReg)])
  {
    Enabling(b);
    Erasing(Written(b, EnableWrite()));
    DeliverTwoWrites(b, EnableWrite(), EraseCommand());
    assert b.log + [WriteEnabled] + [Erased(b.addrReg)] == b.log + [WriteEnabled, Erased(b.addrReg)];
  }

  /** The packets of the driver byte by byte. */
  lemma PacketBytes(addr: nat, data: seq<byte>)
    ensures Encode(SetAddress(addr)) ==
            [0x01, 0xCE, 0x00, 0x00,
             addr % 0x100, addr / 0x100 % 0x100, addr / 0x1_0000 % 0x100, addr / 0x100_0000 % 0x100]
    ensures Encode(EnableWrite()) == [0x01, 0xD9, 0x1A, 0x00, 0x03, 0x5A]
    ensures Encode(WriteData(data)) == [0x40, 0xCE, 0x04, 0x00] + data
    ensures Encode(EraseCommand()) == [0x01, 0xCE, 0x0C, 0x00, 0x00, 0x00, 0x00, 0x00]
    ensures Encode(ReadRegister(FLASH_DATA_REG, 64)) == [0x40, 0x4E, 0x04, 0x00]
    ensures Encode(ReadRegister(FLASH_ADDR_REG, 1)) == [0x01, 0x4E, 0x00, 0x00]
    ensures Encode(ReadRegister(FLASH_ID_REG, 1)) == [0x01, 0x4E, 0x08, 0x00]
  {
  }

  /** A board with its latch clear refuses a page and an erase. */
  lemma LatchNeeded(b: Board, data: seq<byte>)
    requires |b.mem| > 0 && !b.enabled && |data| == 256
    ensures Deliver(b, [0x40, 0xCE, 0x04, 0x00] + data) == b.(faults := b.faults + 1)
    ensures Deliver(b, [0x01, 0xCE, 0x0C, 0x00, 0x00, 0x00, 0x00, 0x00]) == b.(faults := b.faults + 1)
  {
    hide Parse, Encode;
    PacketBytes(0, data);
    OneWrite(b, WriteData(data));
    OneWrite(b, EraseCommand());
  }

  lemma OneWrite(b: Board, c: Command)
    requires |b.mem| > 0 && WellFormed(c) && IsWrite(c.word)
    ensures Deliver(b, Encode(c)) == Written(b, c)
  {
    var cs := [c];
    assert EncodeAll(cs[1..]) == [];
    assert EncodeAll(cs) == Encode(c);
    DeliverCommands(b, cs);
  }

  /** lbp16_write_flash_page_packets: the enable packet and the page packet in one struct. */
  method PagePacket(buff: array<byte>, offset: nat) returns (packet: array<byte>)
    requires offset + PAGE_SIZE <= buff.Length
    ensures fresh(packet)
    ensures packet[..] == Encode(EnableWrite()) + Encode(WriteData(buff[offset..offset + PAGE_SIZE]))
  {
    ghost var data := buff[offset..offset + PAGE_SIZE];
    packet := new byte[266];
    InitPacket6(packet, 0, CmdWriteCommCtrl(1), COMM_CTRL_WRITE_ENA_REG, WRITE_ENABLE_KEY);
    InitPacket4(packet, 6, CmdWriteFpgaFlash(64), FLASH_DATA_REG);
    ghost var head := Le16(CmdWriteCommCtrl(1)) + Le16(COMM_CTRL_WRITE_ENA_REG) + Le16(WRITE_ENABLE_KEY) +
                      Le16(CmdWriteFpgaFlash(64)) + Le16(FLASH_DATA_REG);
    assert packet[..10] == head;
    forall i | 0 <= i < PAGE_SIZE {
      packet[10 + i] := buff[offset + i];
    }
    assert packet[..10] == head;
    assert packet[10..] == data;
    assert packet[..] == packet[..10] + packet[10..];
    PagePacketLayout(head, data);
  }

  lemma PagePacketLayout(head: seq<byte>, data: seq<byte>)
    requires head == Le16(CmdWriteCommCtrl(1)) + Le16(COMM_CTRL_WRITE_ENA_REG) + Le16(WRITE_ENABLE_KEY) +
                     Le16(CmdWriteFpgaFlash(64)) + Le16(FLASH_DATA_REG)
    ensures head + data == Encode(EnableWrite()) + Encode(WriteData(data))
  {
  }

  /** lbp16_erase_flash_sector_packets. */
  method ErasePacket() returns (packet: array<byte>)
    ensures fresh(packet) && packet[..] == Encode(EnableWrite()) + Encode(EraseCommand())
  {
    packet := new byte[14];
    InitPacket6(packet, 0, CmdWriteCommCtrl(1), COMM_CTRL_WRITE_ENA_REG, WRITE_ENABLE_KEY);
    assert packet[..6] == Encode(EnableWrite());
    InitPacket8(packet, 6, CmdWriteFpgaFlash(1), FLASH_SEC_ERASE_REG, 0);
    assert packet[..] == Encode(EnableWrite()) + Encode(EraseCommand());
  }

  class Driver {
    var board: Board

    ghost predicate Valid()
      reads this
    {
      Geometry(|board.mem|)
    }

    constructor (board: Board)
      requires Geometry(|board.mem|)
      ensures Valid() && this.board == board
    {
      this.board := board;
    }

    /** lbp16_send_packet_checked, the whole packet as one datagram. */
    method SendPacket(packet: array<byte>)
      requires Valid()
      modifies this
      ensures board == Deliver(old(board), packet[..])
    {
      board := Deliver(board, packet[..]);
    }

    /** lbp16_recv_packet_checked, when the board has answered with as many bytes as expected. */
    method RecvPacket(buff: array<byte>)
      requires Valid() && board.replies != [] && |board.replies[0]| == buff.Length
      modifies this, buff
      ensures board == old(board).(replies := old(board.replies)[1..]) && buff[..] == old(board.replies)[0]
    {
      var reply := board.replies[0];
      forall i | 0 <= i < buff.Length {
        buff[i] := reply[i];
      }
      board := board.(replies := board.replies[1..]);
    }

    method SetFlashAddress(addr: nat)
      requires Valid() && addr < U32_LIMIT
      modifies this
      ensures Valid() && board == At(old(board), addr)
    {
      var packet := new byte[8];
      InitPacket8(packet, 0, CmdWriteFpgaFlash(1), FLASH_ADDR_REG, addr);
      assert packet[..] == Encode(SetAddress(addr));
      SetAddressDatagram(board, addr);
      SendPacket(packet);
    }

    /** lbp16_read of one flash register. */
    method ReadFlashRegister(reg: nat) returns (data: array<byte>)
      requires Valid() && Idle(board) && (reg == FLASH_ADDR_REG || reg == FLASH_ID_REG)
      modifies this
      ensures Valid() && board == old(board) && fresh(data)
      ensures data[..] == if reg == FLASH_ADDR_REG then Le32(board.addrReg) else [board.id, 0, 0, 0]
    {
      hide Deliver, Interpret, Parse;
      var packet := new byte[4];
      InitPacket4(packet, 0, CmdReadFpgaFlash(1), reg);
      assert packet[..] == Encode(ReadRegister(reg, 1));
      ReadDatagram(board, reg, 1);
      SendPacket(packet);
      data := new byte[4];
      RecvPacket(data);
    }

    method ReadPage(addr: nat, buff: array<byte>)
      requires Valid() && Idle(board) && addr < U32_LIMIT && buff.Length == PAGE_SIZE
      modifies this, buff
      ensures Valid() && board == At(old(board), addr)
      ensures buff[..] == ReadAt(board.mem, addr, PAGE_SIZE)
    {
      SetFlashAddress(addr);
      var packet := new byte[4];
      InitPacket4(packet, 0, CmdReadFpgaFlash(64), FLASH_DATA_REG);
      assert packet[..] == Encode(ReadRegister(FLASH_DATA_REG, 64));
      ReadPageDatagram(board);
      SendPacket(packet);
      RecvPacket(buff);
    }

    method WritePage(addr: nat, buff: array<byte>, offset: nat)
      requires Valid() && Idle(board) && addr < U32_LIMIT && offset + PAGE_SIZE <= buff.Length
      modifies this
      ensures var data := buff[offset..offset + PAGE_SIZE];
        board == At(old(board), addr).(
          mem := ProgramAt(old(board.mem), addr, data),
          log := old(board.log) + [WriteEnabled, Programmed(addr, data)])
      ensures Valid()
    {
      ghost var data := buff[offset..offset + PAGE_SIZE];
      SetFlashAddress(addr);
      var packet := PagePacket(buff, offset);
      WriteDatagram(board, data);
      SendPacket(packet);
      var ignored := ReadFlashRegister(FLASH_ADDR_REG);
    }

    method EraseSector(addr: nat)
      requires Valid() && Idle(board) && addr < U32_LIMIT
      modifies this
      ensures board == At(old(board), addr).(
          mem := EraseAt(old(board.mem), addr),
          log := old(board.log) + [WriteEnabled, Erased(addr)])
      ensures Valid()
    {
      SetFlashAddress(addr);
      var packet := ErasePacket();
      EraseDatagram(board);
      SendPacket(packet);
      var ignored := ReadFlashRegister(FLASH_ADDR_REG);
    }
  }
}
