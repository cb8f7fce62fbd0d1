/** The SPI NOR part on the other side of the bus, as a byte-level automaton. This is the
    environment of eeprom_local.c, written down from the behaviour the M25P command set is used
    for there:
    - a frame is the run of bytes between chip select going low and going high, and its command
      takes effect when chip select goes high on a byte boundary;
    - page program and sector erase need the write-enable latch and start a busy period of a
      finite number of status reads, at whose end the memory changes and the latch is cleared;
    - while busy only the status may be read; any other frame is a fault. */
module NorDevice {
  import opened Bytes
  import opened Flash

  const SPI_CMD_PAGE_WRITE: byte := 0x02
  const SPI_CMD_READ: byte := 0x03
  const SPI_CMD_READ_STATUS: byte := 0x05
  const SPI_CMD_WRITE_ENABLE: byte := 0x06
  const SPI_CMD_READ_IDROM: byte := 0xAB
  const SPI_CMD_SECTOR_ERASE: byte := 0xD8

  /** `busy` counts the status reads left until `pending` becomes the memory; `delay` gives the
      length of the busy period that starts when the log has a given length; `faults` counts the
      frames the device had to ignore. */
  datatype Nor = Nor(
    mem: seq<byte>, id: byte,
    selected: bool, frame: seq<byte>,
    wel: bool, busy: nat, pending: seq<byte>,
    delay: nat -> nat, log: seq<Operation>, faults: nat)

  predicate Idle(n: Nor) {
    !n.selected && n.frame == [] && !n.wel && n.busy == 0 && n.pending == []
  }

  function FrameAddress(frame: seq<byte>): nat
    requires |frame| >= 4
  {
    (frame[1] as int) * 0x1_0000 + (frame[2] as int) * 0x100 + frame[3]
  }

  function Status(n: Nor): byte {
    (if n.busy > 0 then 1 else 0) + (if n.wel then 2 else 0)
  }

  function Select(n: Nor): Nor {
    if n.selected then n else n.(selected := true, frame := [])
  }

  /** The byte the device shifts out in the next byte slot of the frame. */
  function Out(n: Nor): byte {
    if n.frame == [] || |n.mem| == 0 then 0xFF
    else if n.frame[0] == SPI_CMD_READ_STATUS then Status(n)
    else if n.busy > 0 || |n.frame| < 4 then 0xFF
    else if n.frame[0] == SPI_CMD_READ then n.mem[Wrap(FrameAddress(n.frame) + (|n.frame| - 4), |n.mem|)]
    else if n.frame[0] == SPI_CMD_READ_IDROM then n.id
    else 0xFF
  }

  function Recv(n: Nor, b: byte): (r: Nor)
    ensures r == n.(frame := r.frame)
  {
    if n.selected then n.(frame := n.frame + [b]) else n
  }

  /** The 256-byte page latch after `data` has been sent, in sending order: of the bytes that fall
      on one place the last stays, and places not written stay all ones. */
  function PageLatch(data: seq<byte>): (latch: seq<byte>)
    ensures |latch| == PAGE_SIZE
  {
    seq(PAGE_SIZE, j requires 0 <= j < PAGE_SIZE =>
      if j >= |data| then 0xFF else data[j + (|data| - 1 - j) / PAGE_SIZE * PAGE_SIZE])
  }

  /** An accepted program or erase: the latch is cleared when the busy period ends. */
  function Start(n: Nor, after: seq<byte>, op: Operation): Nor {
    var busy := n.delay(|n.log|);
    var m := n.(log := n.log + [op]);
    if busy == 0 then m.(mem := after, wel := false) else m.(busy := busy, pending := after)
  }

  function Fault(n: Nor): Nor { n.(faults := n.faults + 1) }

  function Execute(n: Nor, frame: seq<byte>): Nor {
    if frame == [] || |n.mem| == 0 then n
    else if frame[0] == SPI_CMD_READ_STATUS then
      if n.busy == 0 then n
      else if n.busy == 1 then n.(busy := 0, mem := n.pending, pending := [], wel := false)
      else n.(busy := n.busy - 1)
    else if n.busy > 0 then Fault(n)
    else if frame[0] == SPI_CMD_WRITE_ENABLE && |frame| == 1 then
      n.(wel := true, log := n.log + [WriteEnabled])
    else if (frame[0] == SPI_CMD_READ || frame[0] == SPI_CMD_READ_IDROM) && |frame| >= 4 then n
    else if frame[0] == SPI_CMD_PAGE_WRITE && |frame| > 4 && n.wel then
      var addr, data := FrameAddress(frame), frame[4..];
      Start(n, ProgramAt(n.mem, addr, PageLatch(data)), Programmed(addr, data))
    else if frame[0] == SPI_CMD_SECTOR_ERASE && |frame| == 4 && n.wel then
      var addr := FrameAddress(frame);
      Start(n, EraseAt(n.mem, addr), Erased(addr))
    else Fault(n)
  }

  /** Chip select goes high; off a byte boundary the frame is dropped. */
  function Deselect(n: Nor, aligned: bool): Nor {
    if !n.selected then n
    else
      var m := n.(selected := false, frame := []);
      if aligned then Execute(m, n.frame) else Fault(m)
  }

  /** The command set byte by byte, on an idle or enabled part: the status and id frames, write
      enable, and what is refused. */
  lemma CommandSet(n: Nor, addr: seq<byte>, data: seq<byte>)
    requires |n.mem| > 0 && !n.selected && n.frame == [] && n.busy == 0 && |addr| == 3
    ensures Deselect(n.(selected := true, frame := [0x06]), true) == n.(wel := true, log := n.log + [WriteEnabled])
    ensures Out(n.(selected := true, frame := [0x05])) == if n.wel then 2 else 0
    ensures Out(n.(selected := true, frame := [0xAB] + addr)) == n.id
    ensures !n.wel ==>
      && Deselect(n.(selected := true, frame := [0x02] + addr + data), true) == n.(faults := n.faults + 1)
      && Deselect(n.(selected := true, frame := [0xD8] + addr), true) == n.(faults := n.faults + 1)
  {
    assert ([0x02] + addr + data)[0] == 0x02;
  }

  /** A busy part shows its status, counts the reads of it, and refuses anything else. */
  lemma BusyPart(n: Nor, frame: seq<byte>)
    requires |n.mem| > 0 && !n.selected && n.frame == [] && n.busy > 0 && frame != []
    ensures Out(n.(selected := true, frame := [0x05])) == if n.wel then 3 else 1
    ensures var m := Deselect(n.(selected := true, frame := [0x05]), true);
      m.busy == n.busy - 1 && m.mem == if n.busy == 1 then n.pending else n.mem
    ensures frame[0] != 0x05 ==>
      Deselect(n.(selected := true, frame := frame), true) == n.(faults := n.faults + 1)
  {
  }

  lemma FullPageLatch(data: seq<byte>)
    requires |data| == PAGE_SIZE
    ensures PageLatch(data) == data
  {
  }

  /** The part once its busy period is over. */
  ghost function Finished(n: Nor): Nor {
    if n.busy == 0 then n else n.(busy := 0, mem := n.pending, pending := [], wel := false)
  }

  /** A whole read frame returns consecutive bytes of the memory. */
  lemma ReadFrameOut(n: Nor, addr: nat, frame: seq<byte>)
    requires Geometry(|n.mem|) && n.busy == 0 && n.frame == frame && |frame| >= 4
    requires frame[..4] == [0x03, addr / 0x1_0000 % 0x100, addr / 0x100 % 0x100, addr % 0x100]
    ensures Out(n) == n.mem[Wrap(addr + (|frame| - 4), |n.mem|)]
  {
    FrameAddressSent(frame, addr);
    WrapLow(addr, |frame| - 4, |n.mem|);
  }

  lemma FrameAddressSent(frame: seq<byte>, addr: nat)
    requires |frame| >= 4 && frame[1..4] == [Byte2(addr), Byte1(addr), Byte0(addr)]
    ensures FrameAddress(frame) == addr % 0x100_0000
  {
    assert frame[1] == frame[1..4][0] && frame[2] == frame[1..4][1] && frame[3] == frame[1..4][2];
    Bytes24(addr);
  }

  /** An enabled page-program frame ends as exactly the abstract page program. */
  lemma ProgramFrame(n: Nor, addr: nat, data: seq<byte>)
    requires Geometry(|n.mem|) && !n.selected && n.frame == [] && n.busy == 0 && n.wel && |data| == PAGE_SIZE
    ensures var frame := [0x02, addr / 0x1_0000 % 0x100, addr / 0x100 % 0x100, addr % 0x100] + data;
      Deselect(n.(selected := true, frame := frame), true) ==
      Start(n, ProgramAt(n.mem, addr, data), Programmed(addr % 0x100_0000, data))
  {
    var head := [SPI_CMD_PAGE_WRITE, Byte2(addr), Byte1(addr), Byte0(addr)];
    var frame := head + data;
    assert frame[..4] == head && frame[4..] == data;
    FrameAddressSent(frame, addr);
    FullPageLatch(data);
    ProgramWraps(n.mem, addr, data);
  }

  /** An enabled sector-erase frame ends as exactly the abstract sector erase. */
  lemma EraseFrame(n: Nor, addr: nat)
    requires Geometry(|n.mem|) && !n.selected && n.frame == [] && n.busy == 0 && n.wel
    ensures var frame := [0xD8, addr / 0x1_0000 % 0x100, addr / 0x100 % 0x100, addr % 0x100];
      Deselect(n.(selected := true, frame := frame), true) ==
      Start(n, EraseAt(n.mem, addr), Erased(addr % 0x100_0000))
  {
    var frame := [SPI_CMD_SECTOR_ERASE, Byte2(addr), Byte1(addr), Byte0(addr)];
    FrameAddressSent(frame, addr);
    EraseWraps(n.mem, addr);
  }
}
