/** pci_boards.c: reading the 93C66 behind a PLX9030 bridge by moving three bits of the bridge's
    control register. The part is a Microwire EEPROM with 16-bit words: it takes a bit in whenever
    its clock rises while it is selected; once a start bit, the read code and an 8-bit address are
    in, it shows a dummy 0 and then, clock by clock, the word from its top bit down. */
module BridgeEeprom {
  import opened Bytes

  const EECLK: bv16 := 0x0100
  const EECS: bv16 := 0x0200
  const EEDI: bv16 := 0x0400
  const EEDO: bv16 := 0x0800
  const OTHERS: bv16 := 0xF0FF

  const CMD_READ := 6
  const CMD_MASK := 0x04
  const ADDR_MASK := 0x80
  const DATA_MASK := 0x8000

  /** The register without the three lines to the EEPROM and the one from it. */
  function Others(reg: bv16): bv16 { reg & OTHERS }

  /** The part: its words, the bits taken in since it was selected, and what it shows in place of
      the dummy 0, which a part that is missing or busy leaves high. */
  datatype Part = Part(words: seq<nat>, bits: seq<bool>, dummy: bool)

  predicate Ok(p: Part) {
    |p.words| == 256 && forall i | 0 <= i < |p.words| :: p.words[i] < 0x1_0000
  }

  /** The frame that reads word `reg`. */
  function ReadFrame(reg: byte): seq<bool> { BitsOf(CMD_READ, 3) + BitsOf(reg, 8) }

  function AddressOf(bits: seq<bool>): byte
    requires |bits| >= 11
  {
    assert Pow2(8) == 0x100;
    FromBits(bits[3..11])
  }

  /** The part's output line. */
  function Out(p: Part): bool
    requires Ok(p)
  {
    var n := |p.bits|;
    if n < 11 || p.bits[..3] != BitsOf(CMD_READ, 3) then true
    else if n == 11 then p.dummy
    else if n <= 27 then BitsOf(p.words[AddressOf(p.bits)], 16)[n - 12]
    else true
  }

  /** The control register and the part behind it. */
  datatype Bus = Bus(reg: bv16, part: Part)

  function InW(b: Bus): bv16
    requires Ok(b.part)
  {
    if Out(b.part) then Set(b.reg, EEDO) else Clear(b.reg, EEDO)
  }

  function OutW(b: Bus, v: bv16): Bus {
    var bits :=
      if !Has(v, EECS) then []
      else if Has(b.reg, EECS) && !Has(b.reg, EECLK) && Has(v, EECLK) then b.part.bits + [Has(v, EEDI)]
      else b.part.bits;
    Bus(v, b.part.(bits := bits))
  }

  predicate Line(mask: bv16) { mask == EECLK || mask == EECS || mask == EEDI }

  /** Where the lines are in the register. */
  lemma LinePlaces(reg: bv16)
    ensures Has(reg, EECLK) <==> reg & 0x0100 != 0
    ensures Has(reg, EECS) <==> reg & 0x0200 != 0
    ensures Has(reg, EEDI) <==> reg & 0x0400 != 0
    ensures Has(reg, EEDO) <==> reg & 0x0800 != 0
    ensures Others(reg) == reg & 0xF0FF
  {
  }

  /** The frame that reads a word, bit by bit. */
  lemma FrameBits(reg: byte)
    ensures ReadFrame(reg) ==
            [true, true, false, reg / 128 % 2 == 1, reg / 64 % 2 == 1, reg / 32 % 2 == 1, reg / 16 % 2 == 1,
             reg / 8 % 2 == 1, reg / 4 % 2 == 1, reg / 2 % 2 == 1, reg % 2 == 1]
  {
    ReadCode();
    hide BitsOf;
    ByteBits(reg);
  }

  lemma ReadCode()
    ensures BitsOf(CMD_READ, 3) == [true, true, false]
  {
  }

  /** What the part shows behind the frame: the dummy bit, then the addressed word from its top bit
      down. */
  lemma ShownBehindFrame(p: Part, reg: byte, more: seq<bool>)
    requires Ok(p) && p.bits == ReadFrame(reg) + more
    ensures more == [] ==> Out(p) == p.dummy
    ensures 1 <= |more| <= 16 ==> Out(p) == BitsOf(p.words[reg], 16)[|more| - 1]
  {
    hide Out, BitsOf, Ok;
    assert p.bits[..11] == ReadFrame(reg);
    if more == [] {
      assert p.bits == ReadFrame(reg);
      DummyBit(p, reg);
    } else if |more| <= 16 {
      DataBit(p, reg, |more| - 1);
    }
  }

  /** Setting or clearing one line moves neither the other lines nor the rest of the register. */
  lemma OneLine(reg: bv16, mask: bv16)
    requires Line(mask)
    ensures Has(Set(reg, mask), mask) && !Has(Clear(reg, mask), mask)
    ensures Others(Set(reg, mask)) == Others(reg) == Others(Clear(reg, mask))
    ensures mask != EECLK ==> Has(Set(reg, mask), EECLK) == Has(reg, EECLK) == Has(Clear(reg, mask), EECLK)
    ensures mask != EECS ==> Has(Set(reg, mask), EECS) == Has(reg, EECS) == Has(Clear(reg, mask), EECS)
    ensures mask != EEDI ==> Has(Set(reg, mask), EEDI) == Has(reg, EEDI) == Has(Clear(reg, mask), EEDI)
  {
    hide Set, Clear, Has, Others;
    OwnBit(reg, mask);
    KeepsOthers(reg, mask);
    if mask != EECLK {
      KeepsBit(reg, mask, EECLK);
    }
    if mask != EECS {
      KeepsBit(reg, mask, EECS);
    }
    if mask != EEDI {
      KeepsBit(reg, mask, EEDI);
    }
  }

  lemma OthersSet(reg: bv16, mask: bv16)
    requires mask & OTHERS == 0
    ensures Others(Set(reg, mask)) == Others(reg)
  {
  }

  lemma OthersCleared(reg: bv16, mask: bv16)
    requires mask & OTHERS == 0
    ensures Others(Clear(reg, mask)) == Others(reg)
  {
  }

  lemma KeepsOthers(reg: bv16, mask: bv16)
    requires mask & OTHERS == 0
    ensures Others(Set(reg, mask)) == Others(reg) == Others(Clear(reg, mask))
  {
    hide Set, Clear, Others;
    OthersSet(reg, mask);
    OthersCleared(reg, mask);
  }

  /** Reading the register back changes at most the line from the part. */
  lemma ReadBack(reg: bv16, v: bv16)
    requires v == Set(reg, EEDO) || v == Clear(reg, EEDO)
    ensures Has(v, EECLK) == Has(reg, EECLK) && Has(v, EECS) == Has(reg, EECS) && Has(v, EEDI) == Has(reg, EEDI)
    ensures Others(v) == Others(reg)
    ensures Has(Set(reg, EEDO), EEDO) && !Has(Clear(reg, EEDO), EEDO)
  {
    hide Set, Clear, Has, Others;
    OwnBit(reg, EEDO);
    KeepsBit(reg, EEDO, EECLK);
    KeepsBit(reg, EEDO, EECS);
    KeepsBit(reg, EEDO, EEDI);
    KeepsOthers(reg, EEDO);
  }

  class Bridge {
    var bus: Bus

    ghost predicate Valid()
      reads this
    {
      Ok(bus.part) && (!Has(bus.reg, EECS) ==> bus.part.bits == [])
    }

    constructor (bus: Bus)
      requires Ok(bus.part)
      requires !Has(bus.reg, EECS) ==> bus.part.bits == []
      ensures Valid() && this.bus == bus
    {
      this.bus := bus;
    }

    /** plx9030_SetCSHigh, SetCSLow, SetDinHigh, SetDinLow, SetClockHigh and SetClockLow: the
        register is read, one bit is changed, and it is written back. */
    method SetLine(mask: bv16, high: bool)
      requires Valid() && Line(mask)
      modifies this
      ensures Valid() && Has(bus.reg, mask) == high && Others(bus.reg) == old(Others(bus.reg))
      ensures mask != EECLK ==> Has(bus.reg, EECLK) == old(Has(bus.reg, EECLK))
      ensures mask != EECS ==> Has(bus.reg, EECS) == old(Has(bus.reg, EECS))
      ensures mask != EEDI ==> Has(bus.reg, EEDI) == old(Has(bus.reg, EEDI))
      ensures bus.part == old(bus.part).(bits :=
        if mask == EECS && !high then []
        else if mask == EECLK && high && old(Has(bus.reg, EECS) && !Has(bus.reg, EECLK)) then
          old(bus.part.bits) + [Has(bus.reg, EEDI)]
        else old(bus.part.bits))
    {
      hide Set, Clear, Has, Others, Out;
      var data := InW(bus);
      ReadBack(bus.reg, data);
      OneLine(data, mask);
      if high {
        data := Set(data, mask);
      } else {
        data := Clear(data, mask);
      }
      bus := OutW(bus, data);
    }

    /** The part is deselected and all three lines to it are low, as before and after a word. */
    method LinesLow()
      requires Valid()
      modifies this
      ensures Valid() && Others(bus.reg) == old(Others(bus.reg))
      ensures !Has(bus.reg, EECS) && !Has(bus.reg, EEDI) && !Has(bus.reg, EECLK)
      ensures bus.part == old(bus.part).(bits := [])
    {
      hide Has, Others, Ok;
      SetLine(EECS, false);
      SetLine(EEDI, false);
      SetLine(EECLK, false);
    }

    method DataHighQ() returns (high: bool)
      requires Valid()
      ensures high == Out(bus.part)
    {
      var data := InW(bus);
      ReadBack(bus.reg, data);
      high := Has(data, EEDO);
    }

    /** The command and address loops: `len` bits of `value`, most significant first. */
    method SendBits(value: nat, topMask: nat, len: nat)
      requires Valid() && Has(bus.reg, EECS) && len > 0 && topMask == Pow2(len - 1)
      modifies this
      ensures Valid() && Has(bus.reg, EECS) && Others(bus.reg) == old(Others(bus.reg))
      ensures bus.part == old(bus.part).(bits := old(bus.part.bits) + BitsOf(value, len))
    {
      hide Has, Others, And, Ok, BitsOf, Pow2;
      var mask := topMask;
      for bit := 0 to len
        invariant Valid() && Has(bus.reg, EECS) && Others(bus.reg) == old(Others(bus.reg))
        invariant bit < len ==> mask == Pow2(len - 1 - bit)
        invariant bus.part == old(bus.part).(bits := old(bus.part.bits) + BitsOf(value, len)[..bit])
      {
        MaskTest(value, len, len - 1 - bit);
        SetLine(EEDI, And(mask, value) != 0);
        if bit + 1 < len {
          MaskHalves(len - 2 - bit);
        }
        mask := mask / 2;
        SetLine(EECLK, false);
        SetLine(EECLK, true);
        assert BitsOf(value, len)[..bit] + [BitsOf(value, len)[bit]] == BitsOf(value, len)[..bit + 1];
      }
      assert BitsOf(value, len)[..len] == BitsOf(value, len);
    }

    /** The data loop: the word the part shows, clock by clock. */
    method ReceiveWord(reg: byte) returns (tdata: nat)
      requires Valid() && Has(bus.reg, EECS) && bus.part.bits == ReadFrame(reg)
      modifies this
      ensures Valid() && Has(bus.reg, EECS) && Others(bus.reg) == old(Others(bus.reg))
      ensures bus.part == old(bus.part).(bits := bus.part.bits)
      ensures tdata == bus.part.words[reg]
    {
      hide Has, Others, Or, Out, Shift, FromBits, BitsOf;
      ghost var word := BitsOf(bus.part.words[reg], 16);
      var mask: nat := DATA_MASK;
      tdata := 0;
      Powers();
      GatherEnds(word);
      for bit := 0 to 16
        invariant Valid() && Has(bus.reg, EECS) && Others(bus.reg) == old(Others(bus.reg))
        invariant bit < 16 ==> mask == Pow2(15 - bit)
        invariant bus.part == old(bus.part).(bits := bus.part.bits)
        invariant |bus.part.bits| == 11 + bit && bus.part.bits[..11] == ReadFrame(reg)
        invariant tdata == Shift(FromBits(word[..bit]), 16 - bit)
      {
        SetLine(EECLK, false);
        SetLine(EECLK, true);
        DataBit(bus.part, reg, bit);
        GatherStep(word, bit);
        var high := DataHighQ();
        if high {
          tdata := Or(tdata, mask);
        }
        if bit < 15 {
          MaskHalves(14 - bit);
        }
        mask := mask / 2;
      }
      BitsRoundTrip(bus.part.words[reg], 16);
    }

    /** plx9030_read_eeprom_word: the word at the address, for every content of the part, with only
        the three control lines moved; a part that does not show the dummy 0 reads as 0 and is left
        selected. */
    method ReadEepromWord(reg: byte) returns (tdata: nat)
      requires Valid()
      modifies this
      ensures Valid() && Others(bus.reg) == old(Others(bus.reg))
      ensures bus.part == old(bus.part).(bits := bus.part.bits)
      ensures if bus.part.dummy then tdata == 0 && Has(bus.reg, EECS)
              else tdata == bus.part.words[reg] &&
                   !Has(bus.reg, EECS) && !Has(bus.reg, EEDI) && !Has(bus.reg, EECLK)
    {
      hide Has, Others, Ok, Out, BitsOf;
      LinesLow();
      SetLine(EECS, true);
      Powers();
      SendBits(CMD_READ, CMD_MASK, 3);
      SendBits(reg, ADDR_MASK, 8);
      assert bus.part.bits == ReadFrame(reg);
      DummyBit(bus.part, reg);
      var high := DataHighQ();
      if high {
        return 0;
      }
      tdata := ReceiveWord(reg);
      LinesLow();
    }
  }

  /** Behind a read frame the part shows its dummy bit. */
  lemma DummyBit(p: Part, reg: byte)
    requires Ok(p) && p.bits == ReadFrame(reg)
    ensures Out(p) == p.dummy
  {
    assert p.bits[..3] == BitsOf(CMD_READ, 3);
  }

  /** Behind a read frame and `bit + 1` more clocks the part shows bit `bit` of the addressed word. */
  lemma DataBit(p: Part, reg: byte, bit: nat)
    requires Ok(p) && bit < 16 && |p.bits| == 12 + bit && p.bits[..11] == ReadFrame(reg)
    ensures Out(p) == BitsOf(p.words[reg], 16)[bit]
  {
    assert p.bits[..3] == p.bits[..11][..3] == BitsOf(CMD_READ, 3);
    assert p.bits[3..11] == p.bits[..11][3..] == BitsOf(reg, 8);
    assert Pow2(8) == 0x100;
    BitsRoundTrip(reg, 8);
  }
}
