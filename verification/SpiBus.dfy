/** The wires between the program and the NOR part. A byte-wide register pair (HostMot2, I/O port
    or EPP) exchanges whole bytes; the XIO2001 GPIO register drives the three SPI pins one bit at
    a time, and the part behind it is a mode-0 shift register: it samples its input when the clock
    rises and moves its output when the clock falls. */
module SpiBus {
  import opened Bytes
  import opened NorDevice

  // GPIO data register bits (eeprom_local.c:103-149)
  const CS_BIT: bv16 := 0x2
  const DOUT_BIT: bv16 := 0x4
  const DIN_BIT: bv16 := 0x8
  const CLOCK_BIT: bv16 := 0x10
  const GPIO_IDLE: bv16 := 0x0003

  predicate Cs(reg: bv16) { Has(reg, CS_BIT) }

  predicate Din(reg: bv16) { Has(reg, DIN_BIT) }

  predicate Clock(reg: bv16) { Has(reg, CLOCK_BIT) }

  /** The register without the SPI pins. */
  function Others(reg: bv16): bv16 { reg & 0xFFE1 }

  /** The bits of a byte in sending order, most significant first. */
  function Bits(b: byte): (s: seq<bool>)
    ensures |s| == 8
  {
    BitsOf(b, 8)
  }

  function ByteOf(s: seq<bool>): byte
    requires |s| == 8
  {
    assert Pow2(8) == 0x100;
    FromBits(s)
  }

  datatype Wires =
    | Registers(latch: byte, nor: Nor)
    | Pins(reg: bv16, inBits: seq<bool>, outBits: seq<bool>, nor: Nor)

  /** A write to the GPIO data register, seen by the part as edges on its pins. */
  function WritePins(w: Wires, v: bv16): Wires
    requires w.Pins?
  {
    if Cs(v) then
      Pins(v, [], [],
           if Cs(w.reg) then w.nor else Deselect(w.nor, |w.inBits| == 0 || |w.inBits| == 8))
    else if Cs(w.reg) then
      Pins(v, [], Bits(Out(Select(w.nor))), Select(w.nor))
    else if Clock(v) && !Clock(w.reg) then
      var bits := w.inBits + [Din(v)];
      w.(reg := v, inBits := bits, nor := if |bits| == 8 then Recv(w.nor, ByteOf(bits)) else w.nor)
    else if !Clock(v) && Clock(w.reg) then
      if |w.inBits| >= 8 then w.(reg := v, inBits := [], outBits := Bits(Out(w.nor)))
      else w.(reg := v, outBits := if w.outBits == [] then [] else w.outBits[1..])
    else w.(reg := v)
  }

  /** A read of the GPIO data register: the output pins read back, DOUT is the part's output. */
  function ReadPins(w: Wires): bv16
    requires w.Pins?
  {
    Clear(w.reg, DOUT_BIT) | (if w.outBits != [] && w.outBits[0] then DOUT_BIT else 0)
  }

  /** Where the pins are in the register, and the order of a byte's bits on them. */
  lemma PinPlaces(w: Wires, b: byte)
    requires w.Pins?
    ensures Cs(w.reg) <==> w.reg & 0x2 != 0
    ensures Din(w.reg) <==> w.reg & 0x8 != 0
    ensures Clock(w.reg) <==> w.reg & 0x10 != 0
    ensures Others(w.reg) == w.reg & 0xFFE1
    ensures ReadPins(w) & 0x4 != 0 <==> w.outBits != [] && w.outBits[0]
    ensures Bits(b) == [b / 128 % 2 == 1, b / 64 % 2 == 1, b / 32 % 2 == 1, b / 16 % 2 == 1,
                        b / 8 % 2 == 1, b / 4 % 2 == 1, b / 2 % 2 == 1, b % 2 == 1]
  {
    hide BitsOf;
    ByteBits(b);
  }

  /** Between two bytes, or between two frames, with the clock low. */
  predicate Settled(w: Wires) {
    w.Pins? ==>
      && !Clock(w.reg)
      && w.inBits == []
      && (w.nor.selected <==> !Cs(w.reg))
      && (w.nor.selected ==> w.outBits == Bits(Out(w.nor)))
  }

  /** Setting the clock bit of a selected part takes one input bit in. */
  lemma ClockRises(w: Wires)
    requires w.Pins? && !Clock(w.reg) && !Cs(w.reg)
    ensures var bits := w.inBits + [Din(w.reg)];
      WritePins(w, Set(w.reg, CLOCK_BIT)) ==
      Pins(Set(w.reg, CLOCK_BIT), bits, w.outBits, if |bits| == 8 then Recv(w.nor, ByteOf(bits)) else w.nor)
  {
    ClockBits(w.reg);
  }

  /** Clearing it again moves the output on, to the next byte after eight bits. */
  lemma ClockFalls(w: Wires, reg: bv16)
    requires w.Pins? && w.reg == Set(reg, CLOCK_BIT) && !Clock(reg) && !Cs(reg) && |w.inBits| <= 8
    requires w.outBits != []
    ensures Clear(w.reg, CLOCK_BIT) == reg
    ensures WritePins(w, Clear(w.reg, CLOCK_BIT)) ==
      if |w.inBits| == 8 then Pins(reg, [], Bits(Out(w.nor)), w.nor)
      else Pins(reg, w.inBits, w.outBits[1..], w.nor)
  {
    ClockBits(reg);
  }

  /** Setting and clearing the clock bit moves only the clock. */
  lemma ClockBits(reg: bv16)
    requires !Clock(reg)
    ensures Clock(Set(reg, CLOCK_BIT)) && Clear(Set(reg, CLOCK_BIT), CLOCK_BIT) == reg
    ensures Cs(Set(reg, CLOCK_BIT)) == Cs(reg) && Din(Set(reg, CLOCK_BIT)) == Din(reg)
  {
    hide Set, Clear, Has;
    ClockUndone(reg);
    SetOwn(reg, CLOCK_BIT);
    KeepsBit(reg, CLOCK_BIT, CS_BIT);
    KeepsBit(reg, CLOCK_BIT, DIN_BIT);
  }

  lemma ClockUndone(reg: bv16)
    requires !Clock(reg)
    ensures Clear(Set(reg, CLOCK_BIT), CLOCK_BIT) == reg
  {
  }
}
