/** eth_boards.c and lbp16.c: HostMot2 register transfers as LBP16 datagrams. */
module EthBoards {
  import opened Bytes
  import opened Lbp16

  /** The static packet of lbp16_write: header and data buffer. */
  const PACKET_SIZE := 4 + LBP16_MAX_PACKET_DATA_SIZE * 8

  /** lbp16_write: header and data are copied into the static packet, of which 4 + size bytes go
      out. */
  method Lbp16Write(packet: array<byte>, cmd: nat, addr: nat, buffer: seq<byte>) returns (frame: seq<byte>)
    requires packet.Length == PACKET_SIZE && 4 + |buffer| <= PACKET_SIZE
    modifies packet
    ensures frame == Le16(cmd) + Le16(addr) + buffer
  {
    InitPacket4(packet, 0, cmd, addr);
    forall i | 0 <= i < |buffer| {
      packet[4 + i] := buffer[i];
    }
    frame := packet[..4 + |buffer|];
  }

  /** lbp16_read: the request goes out, and the answer goes through a local buffer, which holds
      anything before, into the caller's. */
  method Lbp16Read(cmd: nat, addr: nat, answer: seq<byte>, localBuff: array<byte>, buffer: array<byte>, size: nat)
    returns (frame: seq<byte>)
    requires |answer| <= localBuff.Length == size <= buffer.Length && localBuff != buffer
    modifies localBuff, buffer
    ensures frame == Le16(cmd) + Le16(addr)
    ensures buffer[..] == answer + old(localBuff[|answer|..]) + old(buffer[size..])
  {
    var packet := new byte[4];
    InitPacket4(packet, 0, cmd, addr);
    frame := packet[..];
    forall i | 0 <= i < |answer| {
      localBuff[i] := answer[i];
    }
    forall i | 0 <= i < size {
      buffer[i] := localBuff[i];
    }
  }

  /** eth_write: a request the protocol cannot count is refused, and one that is accepted fits the
      static packet. */
  method EthWrite(packet: array<byte>, addr: nat, buffer: seq<byte>) returns (r: int, frame: seq<byte>)
    requires packet.Length == PACKET_SIZE
    modifies packet
    ensures r == if |buffer| / 4 > LBP16_MAX_PACKET_DATA_SIZE then -1 else 0
    ensures frame == if r == 0 then Le16(CmdWriteHostmot2Incr(|buffer| / 4)) + Le16(addr) + buffer else []
  {
    if |buffer| / 4 > LBP16_MAX_PACKET_DATA_SIZE {
      return -1, [];
    }
    frame := Lbp16Write(packet, CmdWriteHostmot2Incr(|buffer| / 4), addr, buffer);
    r := 0;
  }

  /** eth_read: a request the protocol cannot count is refused and leaves the buffer alone. */
  method EthRead(addr: nat, answer: seq<byte>, localBuff: array<byte>, buffer: array<byte>, size: nat)
    returns (r: int, frame: seq<byte>)
    requires |answer| <= localBuff.Length == size <= buffer.Length && localBuff != buffer
    modifies localBuff, buffer
    ensures r == if size / 4 > LBP16_MAX_PACKET_DATA_SIZE then -1 else 0
    ensures frame == if r == 0 then Le16(CmdReadHostmot2Incr(size / 4)) + Le16(addr) else []
    ensures buffer[..] ==
      if r == 0 then answer + old(localBuff[|answer|..]) + old(buffer[size..]) else old(buffer[..])
  {
    if size / 4 > LBP16_MAX_PACKET_DATA_SIZE {
      return -1, [];
    }
    frame := Lbp16Read(CmdReadHostmot2Incr(size / 4), addr, answer, localBuff, buffer, size);
    r := 0;
  }

  /** The request frames byte by byte. */
  lemma RequestBytes(addr: nat, count: nat)
    requires count <= 127
    ensures Le16(CmdWriteHostmot2Incr(count)) + Le16(addr) == [0x80 + count, 0xC2, addr % 0x100, addr / 0x100 % 0x100]
    ensures Le16(CmdReadHostmot2Incr(count)) + Le16(addr) == [0x80 + count, 0x42, addr % 0x100, addr / 0x100 % 0x100]
    ensures LBP16_MAX_PACKET_DATA_SIZE == 127
  {
  }

  /** The word of an accepted transfer decodes to its direction, space, width, increment and count. */
  lemma TransferWord(write: bool, count: nat)
    requires count <= LBP16_MAX_PACKET_DATA_SIZE
    ensures var w := if write then CmdWriteHostmot2Incr(count) else CmdReadHostmot2Incr(count);
      && w < 0x1_0000 && IsWrite(w) == write && HasAddr(w) && !IsInfo(w)
      && Space(w) == LBP16_SPACE_HM2 && Width(w) == 4 && AutoInc(w) && Count(w) == count
  {
  }

  /** A write frame parses to the one command that was meant, with the low 16 bits of its address,
      exactly when the size is a multiple of four; a larger rest would be taken for further
      commands or for damage. */
  lemma WriteFrameParses(addr: nat, data: seq<byte>)
    requires |data| / 4 <= LBP16_MAX_PACKET_DATA_SIZE
    ensures var w := CmdWriteHostmot2Incr(|data| / 4);
      Parse(Le16(w) + Le16(addr) + data) == Commands([Command(w, addr % 0x1_0000, data)]) <==> |data| % 4 == 0
  {
    if |data| % 4 == 0 {
      WholeWordsParse(addr, data);
    } else {
      BrokenWordsDoNot(addr, data);
    }
  }

  lemma WholeWordsParse(addr: nat, data: seq<byte>)
    requires |data| / 4 <= LBP16_MAX_PACKET_DATA_SIZE && |data| % 4 == 0
    ensures var w := CmdWriteHostmot2Incr(|data| / 4);
      Parse(Le16(w) + Le16(addr) + data) == Commands([Command(w, addr % 0x1_0000, data)])
  {
    hide Parse, CmdWriteHostmot2Incr, CmdReadHostmot2Incr, IsWrite, HasAddr, Width, Count, Byte0, Byte1;
    var w := CmdWriteHostmot2Incr(|data| / 4);
    TransferWord(true, |data| / 4);
    var c := Command(w, addr % 0x1_0000, data);
    ParseOfEncode([c]);
    OneCommand(c);
    LowBytes(addr);
  }

  lemma SingleIn(c: Command)
    ensures [c][0] == c
  {
  }

  lemma BrokenWordsDoNot(addr: nat, data: seq<byte>)
    requires |data| / 4 <= LBP16_MAX_PACKET_DATA_SIZE && |data| % 4 != 0
    ensures var w := CmdWriteHostmot2Incr(|data| / 4);
      Parse(Le16(w) + Le16(addr) + data) != Commands([Command(w, addr % 0x1_0000, data)])
  {
    hide Parse, EncodeAll, Encode, CmdWriteHostmot2Incr, IsWrite, HasAddr, Width, Count, Le16;
    var w := CmdWriteHostmot2Incr(|data| / 4);
    TransferWord(true, |data| / 4);
    var c := Command(w, addr % 0x1_0000, data);
    var frame := Le16(w) + Le16(addr) + data;
    if Parse(frame) == Commands([c]) {
      EncodeOfParse(frame);
      SingleIn(c);
    }
  }

  lemma ReadFrameParses(addr: nat, size: nat)
    requires size / 4 <= LBP16_MAX_PACKET_DATA_SIZE
    ensures var w := CmdReadHostmot2Incr(size / 4);
      Parse(Le16(w) + Le16(addr)) == Commands([Command(w, addr % 0x1_0000, [])])
  {
    hide Parse, CmdWriteHostmot2Incr, CmdReadHostmot2Incr, IsWrite, HasAddr, Width, Count, Byte0, Byte1;
    var w := CmdReadHostmot2Incr(size / 4);
    TransferWord(false, size / 4);
    var c := Command(w, addr % 0x1_0000, []);
    ParseOfEncode([c]);
    OneCommand(c);
    LowBytes(addr);
    assert Encode(c) == Le16(w) + Le16(addr);
  }

  lemma LowBytes(addr: nat)
    ensures Le16(addr % 0x1_0000) == Le16(addr)
  {
    var q, r := addr / 0x1_0000, addr % 0x1_0000;
    ModUnique(addr, 0x100 * q + r / 0x100, r % 0x100, 0x100);
    ModUnique(addr / 0x100, q, r / 0x100, 0x100);
  }
}
