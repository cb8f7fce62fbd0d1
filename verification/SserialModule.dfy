/** sserial_module.c: reading a remote's memory through the smart-serial mailbox, and walking the
    remote's process data descriptors. The remote is a model: a command is busy for a finite number
    of polls, then a read has put one byte of its 64K memory into the low byte of the data
    register. */
module SserialModule {
  import opened Bytes
  import Bitfile

  const MEMORY := 0x1_0000
  const SSLBP_CMD_DOIT := 0x1000
  const LBP_CMD_READ_INC: nat := 0x4C // LBP_CMD_READ | LBP_ADDR_AUTO_INC
  const LBP_DATA: byte := 0xA0
  const LBP_MODE: byte := 0xB0
  const PDD_SIZE := 14
  const MD_SIZE := 4
  const TEXT_BUFFER := 48
  const SW_MODES := 256

  /** The mailbox of one channel: command/status word, data word, local command register and the
      polls it stays busy. A command not meant for the channel has no effect. `delay` and `upper`
      are the remote's: how long the n-th command takes, and what it leaves in the upper bytes of
      the data word. */
  datatype Port = Port(
    channel: nat, mem: seq<byte>, cs: nat, data: nat, cmd: nat, busy: nat,
    issued: nat, delay: nat -> nat, upper: nat -> nat)

  predicate Ready(p: Port) { |p.mem| == MEMORY && p.busy == 0 && p.cmd == 0 }

  /** The same remote behind the mailbox, with the same memory. */
  predicate SameRemote(p: Port, q: Port) { p.channel == q.channel && p.mem == q.mem }

  function At(mem: seq<byte>, addr: nat): byte
    requires |mem| == MEMORY
  {
    mem[addr % MEMORY]
  }

  /** A finished command: the register clears, and a byte read has delivered. */
  function Complete(p: Port): Port
    requires |p.mem| == MEMORY
  {
    var q := p.(cmd := 0, busy := 0);
    if p.cs / 0x100_0000 == 0x4C then q.(data := p.upper(p.issued) * 0x100 + At(p.mem, p.cs)) else q
  }

  function Issue(p: Port, cmd: nat): Port
    requires |p.mem| == MEMORY
  {
    var q := p.(cmd := cmd, issued := p.issued + 1, busy := p.delay(p.issued));
    if cmd != 0x1000 + Pow2(p.channel) then p else if q.busy == 0 then Complete(q) else q
  }

  function Poll(p: Port): Port
    requires |p.mem| == MEMORY
  {
    if p.busy == 0 then p else if p.busy == 1 then Complete(p) else p.(busy := p.busy - 1)
  }

  // What the memory holds

  function Word16(mem: seq<byte>, addr: nat): nat
    requires |mem| == MEMORY
  {
    At(mem, addr) as int + 0x100 * (At(mem, addr + 1) as int)
  }

  ghost predicate Holds(mem: seq<byte>, addr: nat, bytes: seq<byte>)
    requires |mem| == MEMORY
  {
    forall i | 0 <= i < |bytes| :: At(mem, addr + i) == bytes[i]
  }

  /** A descriptor record: process data with its fields, unit and name; a mode; or one of a type the
      walk passes over. The limits of a data record are floats and stay bytes here. */
  datatype Record =
    | Data(size: byte, dataType: byte, dir: byte, min: seq<byte>, max: seq<byte>, param: nat,
           unit: seq<byte>, name: seq<byte>)
    | Mode(index: byte, modeType: byte, unused: byte, name: seq<byte>)
    | Other(tag: byte)

  predicate Text(s: seq<byte>) { |s| < TEXT_BUFFER && 0 !in s }

  predicate WellFormed(r: Record) {
    match r
    case Data(_, _, _, min, max, param, unit, name) =>
      |min| == 4 && |max| == 4 && param < 0x1_0000 && Text(unit) && Text(name)
    case Mode(_, _, _, name) => Text(name)
    case Other(tag) => tag != LBP_DATA && tag != LBP_MODE
  }

  /** sserial_pdd_t and sserial_md_t as they lie in memory, their strings behind them. */
  function Fields(r: Record): (f: seq<byte>) {
    match r
    case Data(size, dataType, dir, min, max, param, _, _) =>
      [LBP_DATA, size, dataType, dir] + min + max + [Byte0(param), Byte1(param)]
    case Mode(index, modeType, unused, _) => [LBP_MODE, index, modeType, unused]
    case Other(tag) => [tag]
  }

  function Encoded(r: Record): seq<byte> {
    match r
    case Data(_, _, _, _, _, _, unit, name) => Fields(r) + (unit + [0]) + (name + [0])
    case Mode(_, _, _, name) => Fields(r) + (name + [0])
    case Other(_) => Fields(r)
  }

  /** A zero-terminated table of record addresses at `addr`, and the records where it points. */
  ghost predicate Stored(mem: seq<byte>, addr: nat, table: seq<nat>, records: seq<Record>)
    requires |mem| == MEMORY
  {
    && |table| == |records|
    && (forall k | 0 <= k < |table| :: 0 < table[k] < MEMORY && Word16(mem, addr + 2 * k) == table[k])
    && Word16(mem, addr + 2 * |table|) == 0
    && (forall k | 0 <= k < |table| :: WellFormed(records[k]) && Holds(mem, table[k], Encoded(records[k])))
  }

  datatype SwMode = SwMode(index: byte, name: seq<byte>)

  /** The software modes among some records: the mode records of type 1, in order. */
  function SoftwareModes(records: seq<Record>): (m: seq<SwMode>)
    ensures |m| <= |records|
  {
    if records == [] then []
    else
      var n := |records| - 1;
      var r := records[n];
      SoftwareModes(records[..n]) + (if r.Mode? && r.modeType == 1 then [SwMode(r.index, r.name)] else [])
  }

  lemma {:induction false} ModesGrow(records: seq<Record>, k: nat)
    requires k <= |records|
    ensures |SoftwareModes(records[..k])| <= |SoftwareModes(records)|
    decreases |records|
  {
    if k < |records| {
      ModesGrow(records[..|records| - 1], k);
      assert records[..|records| - 1][..k] == records[..k];
    } else {
      assert records[..k] == records;
    }
  }

  lemma NextMode(records: seq<Record>, k: nat)
    requires k < |records|
    ensures var r := records[k];
      SoftwareModes(records[..k + 1]) ==
      SoftwareModes(records[..k]) + (if r.Mode? && r.modeType == 1 then [SwMode(r.index, r.name)] else [])
  {
    assert records[..k + 1][..k] == records[..k];
  }

  lemma NoModes(records: seq<Record>)
    ensures SoftwareModes(records[..0]) == []
  {
  }

  lemma HoldsPart(mem: seq<byte>, addr: nat, before: seq<byte>, part: seq<byte>, after: seq<byte>)
    requires |mem| == MEMORY && Holds(mem, addr, before + part + after)
    ensures Holds(mem, addr + |before|, part)
  {
    forall i | 0 <= i < |part|
      ensures At(mem, addr + |before| + i) == part[i]
    {
      assert (before + part + after)[|before| + i] == part[i];
    }
  }

  class Walker {
    var port: Port
    var swModes: seq<SwMode>

    constructor (port: Port)
      requires Ready(port)
      ensures this.port == port && swModes == []
    {
      this.port, swModes := port, [];
    }

    /** sslbp_wait_complete: polls until the command register clears. */
    method WaitComplete()
      requires |port.mem| == MEMORY && (port.busy == 0 <==> port.cmd == 0)
      modifies this`port
      ensures port == if old(port.busy) == 0 then old(port) else Complete(old(port))
    {
      var cmd := port.cmd;
      port := Poll(port);
      while cmd != 0
        invariant |port.mem| == MEMORY && (port.busy == 0 <==> port.cmd == 0)
        invariant cmd == 0 ==> port.busy == 0
        invariant port.busy == 0 ==> port == if old(port.busy) == 0 then old(port) else Complete(old(port))
        invariant port.busy > 0 ==> port == old(port).(busy := port.busy)
        decreases port.busy, cmd
      {
        cmd := port.cmd;
        port := Poll(port);
      }
    }

    /** sslbp_read_remote8 */
    method ReadRemote8(channel: nat, addr: nat) returns (r: byte)
      requires Ready(port) && channel == port.channel < 8 && addr < 0x100_0000
      modifies this`port
      ensures Ready(port) && SameRemote(port, old(port)) && r == At(port.mem, addr)
    {
      port := port.(cs := LBP_CMD_READ_INC * 0x100_0000 + addr);
      port := Issue(port, SSLBP_CMD_DOIT + Pow2(channel));
      WaitComplete();
      CommandByte(addr);
      r := port.data % 0x100;
    }

    /** sslbp_read_remote16: the bytes are shifted in from the upper one down. */
    method ReadRemote16(channel: nat, addr: nat) returns (ret: nat)
      requires Ready(port) && channel == port.channel < 8 && addr < 0xFF_FFFF
      modifies this`port
      ensures Ready(port) && SameRemote(port, old(port)) && ret == Word16(port.mem, addr)
    {
      ret := 0;
      var i := 2;
      while i > 0
        invariant 0 <= i <= 2 && Ready(port) && SameRemote(port, old(port))
        invariant ret == if i == 2 then 0 else if i == 1 then At(port.mem, addr + 1) else Word16(port.mem, addr)
      {
        i := i - 1;
        var b := ReadRemote8(channel, addr + i);
        ret := ret * 0x100 % 0x1_0000 + b;
      }
    }

    /** sslbp_read_remote_bytes with a size: that many bytes. */
    method ReadRemoteBytes(channel: nat, addr: nat, buffer: array<byte>, size: nat)
      requires Ready(port) && channel == port.channel < 8 && addr + size < 0x100_0000 && size <= buffer.Length
      modifies this`port, buffer
      ensures Ready(port) && SameRemote(port, old(port))
      ensures forall i | 0 <= i < size :: buffer[i] == At(port.mem, addr + i)
      ensures buffer[size..] == old(buffer[size..])
    {
      var at, left := 0, size;
      while left != 0
        invariant at + left == size && Ready(port) && SameRemote(port, old(port))
        invariant forall i | 0 <= i < at :: buffer[i] == At(port.mem, addr + i)
        invariant buffer[at..] == old(buffer[at..])
      {
        var data := ReadRemote8(channel, addr + at);
        buffer[at] := data;
        at := at + 1;
        left := left - 1;
      }
    }

    /** sslbp_read_remote_bytes with size -1: bytes up to and including a NUL. */
    method ReadRemoteString(channel: nat, addr: nat, buffer: array<byte>, ghost text: seq<byte>)
      requires Ready(port) && channel == port.channel < 8 && addr + |text| + 1 < 0x100_0000
      requires 0 !in text && |text| < buffer.Length && Holds(port.mem, addr, text + [0])
      modifies this`port, buffer
      ensures Ready(port) && SameRemote(port, old(port)) && buffer[..|text| + 1] == text + [0]
    {
      var at := 0;
      var size := -1;
      while size != 0
        invariant at <= |text| && size == -1 - at && Ready(port) && SameRemote(port, old(port))
        invariant buffer[..at] == text[..at]
        decreases |text| - at
      {
        var data := ReadRemote8(channel, addr + at);
        assert data == (text + [0])[at];
        buffer[at] := data;
        size := size - 1;
        if size < 0 {
          if data == 0 {
            assert at == |text|;
            assert buffer[..at + 1] == buffer[..at] + [0];
            return;
          }
        }
        at := at + 1;
      }
    }

    /** One pass of the walk's body: the record at `d`, read into the struct and string buffers and
        out of them again. */
    method ReadRecord(channel: nat, d: nat, ghost record: Record) returns (r: Record)
      requires Ready(port) && channel == port.channel < 8 && d < MEMORY
      requires WellFormed(record) && Holds(port.mem, d, Encoded(record))
      modifies this`port
      ensures Ready(port) && SameRemote(port, old(port)) && r == record
    {
      TagByte(port.mem, d, record);
      var recordType := ReadRemote8(channel, d);
      if recordType == LBP_DATA {
        r := ReadData(channel, d, record);
      } else if recordType == LBP_MODE {
        r := ReadMode(channel, d, record);
      } else {
        r := Other(recordType);
      }
    }

    method ReadData(channel: nat, d: nat, ghost record: Record) returns (r: Record)
      requires Ready(port) && channel == port.channel < 8 && d < MEMORY
      requires WellFormed(record) && record.Data? && Holds(port.mem, d, Encoded(record))
      modifies this`port
      ensures Ready(port) && SameRemote(port, old(port)) && r == record
    {
      hide Encoded;
      DataLayout(port.mem, d, record);
      var pdd := new byte[PDD_SIZE];
      ReadRemoteBytes(channel, d, pdd, PDD_SIZE);
      assert pdd[..] == Fields(record);
      var unit := ReadText(channel, d + PDD_SIZE, record.unit);
      var name := ReadText(channel, d + PDD_SIZE + |unit| + 1, record.name);
      FieldsRoundTrip(record, pdd[..]);
      r := Data(pdd[1], pdd[2], pdd[3], pdd[4..8], pdd[8..12], pdd[12] as int + 0x100 * (pdd[13] as int), unit, name);
    }

    method ReadMode(channel: nat, d: nat, ghost record: Record) returns (r: Record)
      requires Ready(port) && channel == port.channel < 8 && d < MEMORY
      requires WellFormed(record) && record.Mode? && Holds(port.mem, d, Encoded(record))
      modifies this`port
      ensures Ready(port) && SameRemote(port, old(port)) && r == record
    {
      hide Encoded;
      ModeLayout(port.mem, d, record);
      var md := new byte[MD_SIZE];
      ReadRemoteBytes(channel, d, md, MD_SIZE);
      assert md[1] == Fields(record)[1] && md[2] == Fields(record)[2] && md[3] == Fields(record)[3];
      var name := ReadText(channel, d + MD_SIZE, record.name);
      r := Mode(md[1], md[2], md[3], name);
    }

    /** A string into a 48-byte buffer, and the text it then holds. */
    method ReadText(channel: nat, addr: nat, ghost text: seq<byte>) returns (s: seq<byte>)
      requires Ready(port) && channel == port.channel < 8 && addr < 0x2_0000
      requires Text(text) && Holds(port.mem, addr, text + [0])
      modifies this`port
      ensures Ready(port) && SameRemote(port, old(port)) && s == text
    {
      var buffer := new byte[TEXT_BUFFER];
      ReadRemoteString(channel, addr, buffer, text);
      Bitfile.StringBeforeNul(text, buffer[..]);
      s := Bitfile.CopyString(buffer);
    }

    /** The descriptor walk of sserial_module_init: every record behind the pointer table is visited
        once, in order, with all it holds; the table's zero ends it; and the software modes are
        the mode records of type 1, in order. */
    method Walk(channel: nat, start: nat, ghost table: seq<nat>, ghost records: seq<Record>)
      returns (visited: seq<Record>)
      requires Ready(port) && channel == port.channel < 8 && start + 2 * |table| + 2 < 0x100_0000
      requires Stored(port.mem, start, table, records)
      requires |swModes| + |SoftwareModes(records)| <= SW_MODES
      modifies this
      ensures Ready(port) && SameRemote(port, old(port))
      ensures visited == records
      ensures swModes == old(swModes) + SoftwareModes(records)
    {
      hide Holds, Encoded, SoftwareModes, WellFormed;
      ghost var k := 0;
      var addr := start;
      visited := [];
      NoModes(records);
      while true
        invariant k <= |table| && addr == start + 2 * k
        invariant Ready(port) && SameRemote(port, old(port))
        invariant visited == records[..k] && swModes == old(swModes) + SoftwareModes(records[..k])
        decreases |table| - k
      {
        var d := ReadRemote16(channel, addr);
        assert k < |table| ==> Word16(port.mem, start + 2 * k) == table[k] > 0;
        if d == 0 {
          break;
        }
        var r := ReadRecord(channel, d, records[k]);
        addr := addr + 2;
        ModesGrow(records, k + 1);
        NextMode(records, k);
        if r.Mode? {
          if r.modeType == 1 {
            assert |swModes| < SW_MODES;
            swModes := swModes + [SwMode(r.index, r.name)];
          }
        }
        visited := visited + [r];
        k := k + 1;
      }
      assert k == |table| && records[..k] == records;
    }
  }

  /** The top byte of the command word is the opcode, the low 16 bits are the address. */
  lemma CommandByte(addr: nat)
    requires addr < 0x100_0000
    ensures (LBP_CMD_READ_INC * 0x100_0000 + addr) / 0x100_0000 == LBP_CMD_READ_INC
    ensures (LBP_CMD_READ_INC * 0x100_0000 + addr) % MEMORY == addr % MEMORY
  {
    ModUnique(LBP_CMD_READ_INC * 0x100_0000 + addr, LBP_CMD_READ_INC * 0x100 + addr / MEMORY, addr % MEMORY, MEMORY);
  }

  lemma TagByte(mem: seq<byte>, d: nat, record: Record)
    requires |mem| == MEMORY && WellFormed(record) && Holds(mem, d, Encoded(record))
    ensures At(mem, d) ==
            match record
            case Data(_, _, _, _, _, _, _, _) => LBP_DATA
            case Mode(_, _, _, _) => LBP_MODE
            case Other(t) => t
  {
    assert |Fields(record)| > 0 && Encoded(record)[0] == Fields(record)[0];
    HoldsFirst(mem, d, Encoded(record));
  }

  lemma HoldsFirst(mem: seq<byte>, addr: nat, bytes: seq<byte>)
    requires |mem| == MEMORY && |bytes| > 0 && Holds(mem, addr, bytes)
    ensures At(mem, addr) == bytes[0]
  {
    var i := 0;
    assert At(mem, addr + i) == bytes[i];
  }

  lemma DataLayout(mem: seq<byte>, d: nat, record: Record)
    requires |mem| == MEMORY && WellFormed(record) && record.Data? && Holds(mem, d, Encoded(record))
    ensures |Fields(record)| == PDD_SIZE && Holds(mem, d, Fields(record))
    ensures Holds(mem, d + PDD_SIZE, record.unit + [0])
    ensures Holds(mem, d + PDD_SIZE + |record.unit| + 1, record.name + [0])
  {
    var f, u, n := Fields(record), record.unit + [0], record.name + [0];
    hide Holds;
    assert Encoded(record) == f + u + n;
    HoldsThree(mem, d, f, u, n);
  }

  lemma HoldsThree(mem: seq<byte>, addr: nat, f: seq<byte>, u: seq<byte>, n: seq<byte>)
    requires |mem| == MEMORY && Holds(mem, addr, f + u + n)
    ensures Holds(mem, addr, f) && Holds(mem, addr + |f|, u) && Holds(mem, addr + |f| + |u|, n)
  {
    assert [] + f + (u + n) == f + u + n == (f + u) + n + [];
    HoldsPart(mem, addr, [], f, u + n);
    HoldsPart(mem, addr, f, u, n);
    HoldsPart(mem, addr, f + u, n, []);
  }

  lemma ModeLayout(mem: seq<byte>, d: nat, record: Record)
    requires |mem| == MEMORY && WellFormed(record) && record.Mode? && Holds(mem, d, Encoded(record))
    ensures forall i | 0 <= i < MD_SIZE :: At(mem, d + i) == Fields(record)[i]
    ensures Holds(mem, d + MD_SIZE, record.name + [0])
  {
    var f, n := Fields(record), record.name + [0];
    assert Encoded(record) == [] + f + n == f + n + [];
    HoldsPart(mem, d, [], f, n);
    HoldsPart(mem, d, f, n, []);
  }

  lemma FieldsRoundTrip(record: Record, pdd: seq<byte>)
    requires record.Data? && WellFormed(record) && pdd == Fields(record)
    ensures |pdd| == PDD_SIZE && pdd[1] == record.size && pdd[2] == record.dataType && pdd[3] == record.dir
    ensures pdd[4..8] == record.min && pdd[8..12] == record.max
    ensures pdd[12] as int + 0x100 * (pdd[13] as int) == record.param
  {
  }

  // The same records read straight from the memory

  /** Byte a of the memory, whose addresses wrap. */
  function Mem(mem: seq<byte>, a: nat): byte
    requires |mem| == 0x1_0000
  {
    mem[a % 0x1_0000]
  }

  /** The bytes from `a` on before a NUL, at most `n` of them. */
  function TextAt(mem: seq<byte>, a: nat, n: nat): (t: seq<byte>)
    requires |mem| == 0x1_0000
    ensures |t| <= n
    decreases n
  {
    if n == 0 || Mem(mem, a) == 0 then [] else [Mem(mem, a)] + TextAt(mem, a + 1, n - 1)
  }

  /** The record at `d`: type 0xA0 with three bytes, two four-byte limits, a little-endian address and
      two strings, type 0xB0 with index, type, a spare byte and a string, or another type. */
  function RecordAt(mem: seq<byte>, d: nat): Record
    requires |mem| == 0x1_0000
  {
    if Mem(mem, d) == 0xA0 then
      var unit := TextAt(mem, d + 14, 48);
      Data(Mem(mem, d + 1), Mem(mem, d + 2), Mem(mem, d + 3),
           [Mem(mem, d + 4), Mem(mem, d + 5), Mem(mem, d + 6), Mem(mem, d + 7)],
           [Mem(mem, d + 8), Mem(mem, d + 9), Mem(mem, d + 10), Mem(mem, d + 11)],
           Mem(mem, d + 12) as int + 0x100 * (Mem(mem, d + 13) as int),
           unit, TextAt(mem, d + 14 + |unit| + 1, 48))
    else if Mem(mem, d) == 0xB0 then
      Mode(Mem(mem, d + 1), Mem(mem, d + 2), Mem(mem, d + 3), TextAt(mem, d + 4, 48))
    else Other(Mem(mem, d))
  }

  /** Its strings end within the 48-byte buffers. */
  predicate Ends(r: Record) {
    match r
    case Data(_, _, _, _, _, _, unit, name) => |unit| < 48 && |name| < 48
    case Mode(_, _, _, name) => |name| < 48
    case Other(_) => true
  }

  lemma {:induction false} TextStored(mem: seq<byte>, a: nat, text: seq<byte>, n: nat)
    requires |mem| == 0x1_0000 && |text| < n
    ensures 0 !in text && Holds(mem, a, text + [0]) <==> TextAt(mem, a, n) == text
    decreases n
  {
    HoldsFirst0(mem, a, text + [0]);
    if text == [] {
      assert (text + [0])[1..] == [];
    } else {
      var rest := text[1..];
      TextStored(mem, a + 1, rest, n - 1);
      assert (text + [0])[1..] == rest + [0];
      assert text == [text[0]] + rest;
      assert 0 !in text <==> text[0] != 0 && 0 !in rest;
      if TextAt(mem, a, n) == text {
        assert TextAt(mem, a, n)[0] == Mem(mem, a) && TextAt(mem, a, n)[1..] == TextAt(mem, a + 1, n - 1);
      }
    }
  }

  lemma HoldsFirst0(mem: seq<byte>, addr: nat, bytes: seq<byte>)
    requires |mem| == 0x1_0000 && |bytes| > 0
    ensures Holds(mem, addr, bytes) <==> Mem(mem, addr) == bytes[0] && Holds(mem, addr + 1, bytes[1..])
  {
    if Mem(mem, addr) == bytes[0] && Holds(mem, addr + 1, bytes[1..]) {
      forall i | 0 <= i < |bytes|
        ensures At(mem, addr + i) == bytes[i]
      {
        if i > 0 {
          assert At(mem, addr + 1 + (i - 1)) == bytes[1..][i - 1];
        }
      }
    }
    if Holds(mem, addr, bytes) {
      assert At(mem, addr + 0) == bytes[0];
      forall i | 0 <= i < |bytes[1..]|
        ensures At(mem, addr + 1 + i) == bytes[1..][i]
      {
        assert At(mem, addr + (i + 1)) == bytes[i + 1];
      }
    }
  }

  lemma HoldsJoined(mem: seq<byte>, addr: nat, x: seq<byte>, y: seq<byte>)
    requires |mem| == 0x1_0000
    ensures Holds(mem, addr, x + y) <==> Holds(mem, addr, x) && Holds(mem, addr + |x|, y)
  {
    if Holds(mem, addr, x + y) {
      assert [] + x + y == x + y + [] == x + y;
      HoldsPart(mem, addr, [], x, y);
      HoldsPart(mem, addr, x, y, []);
    }
    if Holds(mem, addr, x) && Holds(mem, addr + |x|, y) {
      forall i | 0 <= i < |x + y|
        ensures At(mem, addr + i) == (x + y)[i]
      {
        if i >= |x| {
          assert At(mem, addr + |x| + (i - |x|)) == y[i - |x|];
        }
      }
    }
  }

  /** A well-formed record is stored at `d` exactly when it is what the memory reads as there. */
  lemma RecordStored(mem: seq<byte>, d: nat, record: Record)
    requires |mem| == 0x1_0000
    ensures WellFormed(record) && Holds(mem, d, Encoded(record)) <==> record == RecordAt(mem, d) && Ends(record)
  {
    hide Holds, TextAt;
    match record
    case Data(_, _, _, _, _, _, _, _) => DataStored(mem, d, record);
    case Mode(_, _, _, _) => ModeStored(mem, d, record);
    case Other(tag) =>
      HoldsFirst0(mem, d, [tag]);
      assert [tag][1..] == [];
      HoldsNone(mem, d + 1);
  }

  lemma HoldsNone(mem: seq<byte>, addr: nat)
    requires |mem| == 0x1_0000
    ensures Holds(mem, addr, [])
  {
  }

  lemma ModeStored(mem: seq<byte>, d: nat, record: Record)
    requires |mem| == 0x1_0000 && record.Mode?
    ensures WellFormed(record) && Holds(mem, d, Encoded(record)) <==> record == RecordAt(mem, d) && Ends(record)
  {
    hide Holds, TextAt;
    var Mode(index, modeType, unused, name) := record;
    HoldsJoined(mem, d, Fields(record), name + [0]);
    HoldsFour(mem, d, 0xB0, index, modeType, unused);
    if |name| < 48 {
      TextStored(mem, d + 4, name, 48);
    }
  }

  lemma HoldsFour(mem: seq<byte>, d: nat, a: byte, b: byte, c: byte, e: byte)
    requires |mem| == 0x1_0000
    ensures Holds(mem, d, [a, b, c, e]) <==>
            Mem(mem, d) == a && Mem(mem, d + 1) == b && Mem(mem, d + 2) == c && Mem(mem, d + 3) == e
  {
    hide Holds;
    HoldsFirst0(mem, d, [a, b, c, e]);
    assert [a, b, c, e][1..] == [b, c, e];
    HoldsFirst0(mem, d + 1, [b, c, e]);
    assert [b, c, e][1..] == [c, e];
    HoldsFirst0(mem, d + 2, [c, e]);
    assert [c, e][1..] == [e];
    HoldsFirst0(mem, d + 3, [e]);
    assert [e][1..] == [];
    HoldsNone(mem, d + 4);
  }

  lemma DataStored(mem: seq<byte>, d: nat, record: Record)
    requires |mem| == 0x1_0000 && record.Data?
    ensures WellFormed(record) && Holds(mem, d, Encoded(record)) <==> record == RecordAt(mem, d) && Ends(record)
  {
    hide Holds, TextAt, RecordAt, Fields, Mem;
    RecordAtData(mem, d);
    var unit, name := record.unit, record.name;
    if |record.min| == 4 && |record.max| == 4 && record.param < 0x1_0000 {
      LimitsStored(mem, d, record);
      HoldsJoined(mem, d, Fields(record) + (unit + [0]), name + [0]);
      HoldsJoined(mem, d, Fields(record), unit + [0]);
      if |unit| < 48 && |name| < 48 {
        TextStored(mem, d + 14, unit, 48);
        TextStored(mem, d + 14 + |unit| + 1, name, 48);
      }
    }
  }

  lemma RecordAtData(mem: seq<byte>, d: nat)
    requires |mem| == 0x1_0000
    ensures var r := RecordAt(mem, d);
      && (r.Data? <==> Mem(mem, d) == 0xA0)
      && (r.Data? ==> |r.min| == 4 && |r.max| == 4 && r.param < 0x1_0000 && r.unit == TextAt(mem, d + 14, 48) &&
                      r.name == TextAt(mem, d + 14 + |r.unit| + 1, 48))
  {
    hide TextAt, Mem;
  }

  lemma LimitsStored(mem: seq<byte>, d: nat, record: Record)
    requires |mem| == 0x1_0000 && record.Data? && |record.min| == 4 && |record.max| == 4 && record.param < 0x1_0000
    ensures |Fields(record)| == 14
    ensures var r := RecordAt(mem, d);
      Holds(mem, d, Fields(record)) <==>
      && Mem(mem, d) == 0xA0
      && record.size == r.size && record.dataType == r.dataType && record.dir == r.dir
      && record.min == r.min && record.max == r.max && record.param == r.param
  {
    hide Holds, TextAt;
    var Data(size, dataType, dir, min, max, param, _, _) := record;
    var head := [0xA0, size, dataType, dir];
    var tail: seq<byte> := [Byte0(param), Byte1(param)];
    HoldsJoined(mem, d, head + min + max, tail);
    HoldsJoined(mem, d, head + min, max);
    HoldsJoined(mem, d, head, min);
    HoldsFour(mem, d, 0xA0, size, dataType, dir);
    assert min == [min[0], min[1], min[2], min[3]] && max == [max[0], max[1], max[2], max[3]];
    HoldsFour(mem, d + 4, min[0], min[1], min[2], min[3]);
    HoldsFour(mem, d + 8, max[0], max[1], max[2], max[3]);
    HoldsTwo(mem, d + 12, param);
  }

  lemma HoldsTwo(mem: seq<byte>, d: nat, n: nat)
    requires |mem| == 0x1_0000 && n < 0x1_0000
    ensures Holds(mem, d, [Byte0(n), Byte1(n)]) <==> n == Mem(mem, d) as int + 0x100 * (Mem(mem, d + 1) as int)
  {
    HoldsFirst0(mem, d, [Byte0(n), Byte1(n)]);
    assert [Byte0(n), Byte1(n)][1..] == [Byte1(n)];
    HoldsFirst0(mem, d + 1, [Byte1(n)]);
    assert [Byte1(n)][1..] == [];
    HoldsNone(mem, d + 2);
  }

  /** What the walk requires of the memory, and visits: little-endian addresses up to a zero, and where
      each points the record the memory reads as there, if its strings end in time. */
  lemma TableStored(mem: seq<byte>, start: nat, table: seq<nat>, records: seq<Record>)
    requires |mem| == 0x1_0000
    ensures Stored(mem, start, table, records) <==>
      && |table| == |records|
      && (forall k | 0 <= k < |table| ::
            0 < table[k] == Mem(mem, start + 2 * k) as int + 0x100 * (Mem(mem, start + 2 * k + 1) as int))
      && Mem(mem, start + 2 * |table|) == 0 && Mem(mem, start + 2 * |table| + 1) == 0
      && (forall k | 0 <= k < |table| :: records[k] == RecordAt(mem, table[k]) && Ends(records[k]))
  {
    hide Holds, RecordAt, Ends, Encoded, WellFormed;
    forall k | 0 <= k < |table| && |table| == |records|
      ensures WellFormed(records[k]) && Holds(mem, table[k], Encoded(records[k])) <==>
              records[k] == RecordAt(mem, table[k]) && Ends(records[k])
    {
      RecordStored(mem, table[k], records[k]);
    }
  }

  /** The software modes of a table of addresses: where the memory has a record of type 0xB0 and mode
      type 1, its index and name, in the order of the table. */
  function ModesAt(mem: seq<byte>, table: seq<nat>): seq<SwMode>
    requires |mem| == 0x1_0000
  {
    if table == [] then []
    else
      var n := |table| - 1;
      var d := table[n];
      ModesAt(mem, table[..n]) +
      if Mem(mem, d) == 0xB0 && Mem(mem, d + 2) == 1 then [SwMode(Mem(mem, d + 1), TextAt(mem, d + 4, 48))] else []
  }

  lemma {:induction false} WalkedModes(mem: seq<byte>, table: seq<nat>, records: seq<Record>)
    requires |mem| == 0x1_0000 && |table| == |records|
    requires forall k | 0 <= k < |table| :: records[k] == RecordAt(mem, table[k])
    ensures SoftwareModes(records) == ModesAt(mem, table)
  {
    if table != [] {
      var n := |table| - 1;
      WalkedModes(mem, table[..n], records[..n]);
    }
  }
}
