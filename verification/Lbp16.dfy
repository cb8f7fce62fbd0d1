/** lbp16.h: LBP16 command words, packets, and what a board makes of a datagram. The flags of a
    command word are disjoint bits, so ORing them is adding them here. */
module Lbp16 {
  import opened Bytes

  const LBP16_MAX_PACKET_DATA_SIZE := 0x7F

  const FLASH_ADDR_REG := 0x0000
  const FLASH_DATA_REG := 0x0004
  const FLASH_ID_REG := 0x0008
  const FLASH_SEC_ERASE_REG := 0x000C
  const COMM_CTRL_WRITE_ENA_REG := 0x001A

  const LBP16_ADDR_AUTO_INC := 0x0080
  const LBP16_ARGS_16BIT := 0x0100
  const LBP16_ARGS_32BIT := 0x0200
  const LBP16_SPACE_HM2 := 0x0000
  const LBP16_SPACE_FPGA_FLASH := 0x0C00
  const LBP16_SPACE_COMM_CTRL := 0x1800
  const LBP16_ADDR := 0x4000
  const LBP16_WRITE := 0x8000

  const CMD_READ_ADDR_32 := LBP16_ADDR + LBP16_ARGS_32BIT
  const CMD_WRITE_ADDR_16 := LBP16_WRITE + LBP16_ADDR + LBP16_ARGS_16BIT
  const CMD_WRITE_ADDR_32 := LBP16_WRITE + LBP16_ADDR + LBP16_ARGS_32BIT

  function CmdReadFpgaFlash(size: nat): nat { CMD_READ_ADDR_32 + LBP16_SPACE_FPGA_FLASH + size % 0x80 }

  function CmdWriteFpgaFlash(size: nat): nat { CMD_WRITE_ADDR_32 + LBP16_SPACE_FPGA_FLASH + size % 0x80 }

  function CmdWriteCommCtrl(size: nat): nat { CMD_WRITE_ADDR_16 + LBP16_SPACE_COMM_CTRL + size % 0x80 }

  function CmdReadHostmot2Incr(size: nat): nat {
    CMD_READ_ADDR_32 + LBP16_SPACE_HM2 + LBP16_ADDR_AUTO_INC + size % 0x80
  }

  function CmdWriteHostmot2Incr(size: nat): nat {
    CMD_WRITE_ADDR_32 + LBP16_SPACE_HM2 + LBP16_ADDR_AUTO_INC + size % 0x80
  }

  // The fields of a command word, as the board decodes them

  predicate IsWrite(word: nat) { word / 0x8000 % 2 == 1 }

  predicate HasAddr(word: nat) { word / 0x4000 % 2 == 1 }

  predicate IsInfo(word: nat) { word / 0x2000 % 2 == 1 }

  function Space(word: nat): nat { word / 0x400 % 8 * 0x400 }

  function Width(word: nat): nat {
    var w := word / 0x100 % 4;
    if w == 0 then 1 else if w == 1 then 2 else if w == 2 then 4 else 8
  }

  predicate AutoInc(word: nat) { word / 0x80 % 2 == 1 }

  function Count(word: nat): nat { word % 0x80 }

  /** One command of a datagram. `addr` is 0 when the word carries no address, `data` is what a
      write brings along. */
  datatype Command = Command(word: nat, addr: nat, data: seq<byte>)

  function DataLength(word: nat): nat { if IsWrite(word) then Count(word) * Width(word) else 0 }

  predicate WellFormed(c: Command) {
    && c.word < 0x1_0000 && c.addr < 0x1_0000
    && (!HasAddr(c.word) ==> c.addr == 0)
    && |c.data| == DataLength(c.word)
  }

  function FromLe16(s: seq<byte>): nat
    requires |s| >= 2
  {
    s[0] as int + (s[1] as int) * 0x100
  }

  function FromLe32(s: seq<byte>): (n: nat)
    requires |s| >= 4
    ensures n < U32_LIMIT
  {
    s[0] as int + (s[1] as int) * 0x100 + (s[2] as int) * 0x1_0000 + (s[3] as int) * 0x100_0000
  }

  function Encode(c: Command): seq<byte> {
    Le16(c.word) + (if HasAddr(c.word) then Le16(c.addr) else []) + c.data
  }

  function EncodeAll(cs: seq<Command>): seq<byte> {
    if cs == [] then [] else Encode(cs[0]) + EncodeAll(cs[1..])
  }

  datatype Parsed = Malformed | Commands(list: seq<Command>)

  function HeadLength(word: nat): nat { if HasAddr(word) then 4 else 2 }

  /** Length of the first command of a datagram, 0 when it is cut short. */
  function FirstLength(d: seq<byte>): (n: nat)
    ensures n <= |d|
  {
    if |d| < 2 then 0
    else
      var n := HeadLength(FromLe16(d)) + DataLength(FromLe16(d));
      if n <= |d| then n else 0
  }

  function First(d: seq<byte>): Command
    requires FirstLength(d) > 0
  {
    var word := FromLe16(d);
    Command(word, if HasAddr(word) then FromLe16(d[2..]) else 0, d[HeadLength(word)..FirstLength(d)])
  }

  /** The commands of a datagram, one after the other with nothing left over. */
  function Parse(d: seq<byte>): Parsed
    decreases |d|
  {
    if d == [] then Commands([])
    else if FirstLength(d) == 0 then Malformed
    else
      var rest := Parse(d[FirstLength(d)..]);
      if rest.Malformed? then Malformed else Commands([First(d)] + rest.list)
  }

  lemma Le16RoundTrip(n: nat)
    requires n < 0x1_0000
    ensures FromLe16(Le16(n)) == n
  {
  }

  lemma Le32RoundTrip(n: nat)
    requires n < U32_LIMIT
    ensures FromLe32(Le32(n)) == n
  {
    Bytes32(n);
  }

  lemma FirstOfEncode(c: Command, tail: seq<byte>)
    requires WellFormed(c)
    ensures FirstLength(Encode(c) + tail) == |Encode(c)| > 0 && First(Encode(c) + tail) == c
  {
    var d := Encode(c) + tail;
    var head := HeadLength(c.word);
    assert d[0] == Le16(c.word)[0] && d[1] == Le16(c.word)[1];
    Le16RoundTrip(c.word);
    assert FromLe16(d) == c.word;
    if HasAddr(c.word) {
      assert d[2..][0] == Le16(c.addr)[0] && d[2..][1] == Le16(c.addr)[1];
      Le16RoundTrip(c.addr);
    }
    assert d[head..head + |c.data|] == c.data;
  }

  lemma EncodeOfFirst(d: seq<byte>)
    requires FirstLength(d) > 0
    ensures FirstLength(d) <= |d| && WellFormed(First(d)) && Encode(First(d)) == d[..FirstLength(d)]
  {
    var word, n := FromLe16(d), FirstLength(d);
    assert Le16(word) == d[..2];
    if HasAddr(word) {
      assert Le16(FromLe16(d[2..])) == d[2..4];
      assert d[..n] == d[..2] + d[2..4] + d[4..n];
    } else {
      assert d[..n] == d[..2] + d[2..n];
    }
  }

  /** A datagram decodes to exactly the commands it was built from. */
  lemma {:induction false} ParseOfEncode(cs: seq<Command>)
    requires forall i | 0 <= i < |cs| :: WellFormed(cs[i])
    ensures Parse(EncodeAll(cs)) == Commands(cs)
  {
    if cs != [] {
      var c, tail := cs[0], EncodeAll(cs[1..]);
      FirstOfEncode(c, tail);
      assert (Encode(c) + tail)[|Encode(c)|..] == tail;
      ParseOfEncode(cs[1..]);
      assert cs == [c] + cs[1..];
    }
  }

  lemma OneCommand(c: Command)
    ensures EncodeAll([c]) == Encode(c)
  {
    assert [c][1..] == [];
  }

  /** And there is no other way to read it: what parses is the encoding of the result. */
  lemma {:induction false} EncodeOfParse(d: seq<byte>)
    requires Parse(d).Commands?
    ensures EncodeAll(Parse(d).list) == d
    ensures forall i | 0 <= i < |Parse(d).list| :: WellFormed(Parse(d).list[i])
    decreases |d|
  {
    hide Encode, First, FirstLength, WellFormed;
    if d != [] {
      var n, cs := FirstLength(d), Parse(d).list;
      EncodeOfFirst(d);
      EncodeOfParse(d[n..]);
      assert cs == [First(d)] + Parse(d[n..]).list;
      assert cs[1..] == Parse(d[n..]).list;
      assert d == d[..n] + d[n..];
    }
  }

  // LBP16_INIT_PACKET4/6/8: a packet written field by field into a struct

  /** Two bytes written where `rest` starts. */
  lemma PutTwo(head: seq<byte>, rest: seq<byte>, x: byte, y: byte)
    requires |rest| >= 2
    ensures (head + rest)[|head| := x][|head| + 1 := y] == (head + [x, y]) + rest[2..]
  {
  }

  method InitPacket4(packet: array<byte>, at: nat, cmd: nat, addr: nat)
    requires at + 4 <= packet.Length
    modifies packet
    ensures packet[..] == old(packet[..at]) + Le16(cmd) + Le16(addr) + old(packet[at + 4..])
  {
    packet[at] := Byte0(cmd);
    packet[at + 1] := Byte1(cmd);
    packet[at + 2] := Byte0(addr);
    packet[at + 3] := Byte1(addr);
  }

  method InitPacket6(packet: array<byte>, at: nat, cmd: nat, addr: nat, data: nat)
    requires at + 6 <= packet.Length
    modifies packet
    ensures packet[..] == old(packet[..at]) + Le16(cmd) + Le16(addr) + Le16(data) + old(packet[at + 6..])
  {
    hide Byte0, Byte1;
    ghost var head, rest := packet[..at] + Le16(cmd) + Le16(addr), packet[at + 4..];
    InitPacket4(packet, at, cmd, addr);
    packet[at + 4] := Byte0(data);
    packet[at + 5] := Byte1(data);
    PutTwo(head, rest, Byte0(data), Byte1(data));
    assert rest[2..] == old(packet[at + 6..]);
  }

  method InitPacket8(packet: array<byte>, at: nat, cmd: nat, addr: nat, data: nat)
    requires at + 8 <= packet.Length
    modifies packet
    ensures packet[..] == old(packet[..at]) + Le16(cmd) + Le16(addr) + Le32(data) + old(packet[at + 8..])
  {
    hide Byte0, Byte1, Byte2, Byte3;
    ghost var head, rest := packet[..at] + Le16(cmd) + Le16(addr), packet[at + 4..];
    InitPacket4(packet, at, cmd, addr);
    packet[at + 4] := Byte0(data);
    packet[at + 5] := Byte1(data);
    PutTwo(head, rest, Byte0(data), Byte1(data));
    ghost var head2, rest2 := head + [Byte0(data), Byte1(data)], rest[2..];
    assert packet[..] == head2 + rest2;
    packet[at + 6] := Byte2(data);
    packet[at + 7] := Byte3(data);
    PutTwo(head2, rest2, Byte2(data), Byte3(data));
    assert rest2[2..] == old(packet[at + 8..]);
    assert head2 + [Byte2(data), Byte3(data)] == head + Le32(data);
  }
}
