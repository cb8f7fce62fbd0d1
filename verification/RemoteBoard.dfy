/** The board behind LBP16: its flash, its flash address register and its write-enable latch. This
    is the environment of eeprom_remote.c. A flash command completes before the board looks at the
    next one; the latch is set by writing 0x5A03 and used up by one program or erase; a command
    outside this set, or a program or erase with the latch clear, is a fault. */
module RemoteBoard {
  import opened Bytes
  import opened Flash
  import opened Lbp16

  const WRITE_ENABLE_KEY := 0x5A03

  datatype Board = Board(
    mem: seq<byte>, id: byte, addrReg: nat, enabled: bool,
    replies: seq<seq<byte>>, log: seq<Operation>, faults: nat)

  predicate Idle(b: Board) { !b.enabled && b.replies == [] }

  function BoardFault(b: Board): Board { b.(faults := b.faults + 1) }

  /** One write command. */
  function Written(b: Board, c: Command): Board
    requires WellFormed(c) && IsWrite(c.word) && |b.mem| > 0
  {
    if IsInfo(c.word) || !HasAddr(c.word) then BoardFault(b)
    else if Space(c.word) == LBP16_SPACE_COMM_CTRL && Width(c.word) == 2
            && c.addr == COMM_CTRL_WRITE_ENA_REG && Count(c.word) == 1 then
      if FromLe16(c.data) == WRITE_ENABLE_KEY then b.(enabled := true, log := b.log + [WriteEnabled])
      else b.(enabled := false)
    else if Space(c.word) == LBP16_SPACE_FPGA_FLASH && Width(c.word) == 4 then
      if c.addr == FLASH_ADDR_REG && Count(c.word) == 1 then b.(addrReg := FromLe32(c.data))
      else if c.addr == FLASH_DATA_REG && Count(c.word) == 64 && b.enabled then
        b.(mem := ProgramAt(b.mem, b.addrReg, c.data), enabled := false,
           log := b.log + [Programmed(b.addrReg, c.data)])
      else if c.addr == FLASH_SEC_ERASE_REG && Count(c.word) == 1 && b.enabled then
        b.(mem := EraseAt(b.mem, b.addrReg), enabled := false, log := b.log + [Erased(b.addrReg)])
      else BoardFault(b)
    else BoardFault(b)
  }

  /** What one read command answers. */
  function Answer(b: Board, c: Command): seq<byte>
    requires WellFormed(c) && !IsWrite(c.word) && |b.mem| > 0
  {
    if IsInfo(c.word) || !HasAddr(c.word) || Space(c.word) != LBP16_SPACE_FPGA_FLASH || Width(c.word) != 4 then []
    else if c.addr == FLASH_ADDR_REG && Count(c.word) == 1 then Le32(b.addrReg)
    else if c.addr == FLASH_ID_REG && Count(c.word) == 1 then [b.id, 0, 0, 0]
    else if c.addr == FLASH_DATA_REG then ReadAt(b.mem, b.addrReg, 4 * Count(c.word))
    else []
  }

  /** A datagram's commands in order, `reply` collecting what its reads answer. */
  function Interpret(b: Board, cs: seq<Command>, reply: seq<byte>): (Board, seq<byte>)
    requires |b.mem| > 0 && forall i | 0 <= i < |cs| :: WellFormed(cs[i])
    decreases |cs|
  {
    if cs == [] then (b, reply)
    else if IsWrite(cs[0].word) then Interpret(Written(b, cs[0]), cs[1..], reply)
    else Interpret(b, cs[1..], reply + Answer(b, cs[0]))
  }

  /** A datagram arrives. One that does not parse is a fault; one with reads is answered. */
  function Deliver(b: Board, d: seq<byte>): Board
    requires |b.mem| > 0
  {
    var parsed := Parse(d);
    if parsed.Malformed? then BoardFault(b)
    else
      EncodeOfParse(d);
      var (after, reply) := Interpret(b, parsed.list, []);
      if reply == [] then after else after.(replies := after.replies + [reply])
  }

  /** The datagram built from a list of commands has the effect of those commands. */
  lemma DeliverCommands(b: Board, cs: seq<Command>)
    requires |b.mem| > 0 && forall i | 0 <= i < |cs| :: WellFormed(cs[i])
    ensures Parse(EncodeAll(cs)) == Commands(cs)
    ensures var (after, reply) := Interpret(b, cs, []);
      Deliver(b, EncodeAll(cs)) == if reply == [] then after else after.(replies := after.replies + [reply])
  {
    ParseOfEncode(cs);
  }
}
