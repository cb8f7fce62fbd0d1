/** eeprom_local.c: the SPI transactions of the local boards, over either back-end. */
module LocalDriver {
  import opened Bytes
  import opened Flash
  import opened NorDevice
  import opened SpiBus

  const DATA_MASK := 0x80
  const WRITE_IN_PROGRESS_MASK := 0x01

  class Driver {
    var wires: Wires
    var gpioRegVal: bv16

    ghost predicate Valid()
      reads this
    {
      && Settled(wires)
      && (wires.Pins? ==> gpioRegVal == wires.reg && Others(gpioRegVal) == Others(GPIO_IDLE))
      && Geometry(|wires.nor.mem|)
      && (wires.nor.busy > 0 ==> |wires.nor.pending| == |wires.nor.mem|)
    }

    ghost function Device(): Nor
      reads this
    {
      wires.nor
    }

    /** The byte the part receives while the driver only reads: register back-ends send 0, the
        GPIO back-end leaves its data pin as it was. */
    ghost function Filler(): byte
      reads this
    {
      if wires.Pins? && Din(wires.reg) then 0xFF else 0
    }

    /** open_spi_access_local: on GPIO boards the first register write parks the pins. */
    constructor (wires: Wires)
      requires Geometry(|wires.nor.mem|) && Idle(wires.nor)
      ensures Valid() && Device() == wires.nor && (this.wires.Pins? <==> wires.Pins?)
      ensures wires.Pins? ==> gpioRegVal == 0x0003
    {
      gpioRegVal := GPIO_IDLE;
      this.wires := if wires.Pins? then WritePins(wires, GPIO_IDLE) else wires;
    }

    method WriteGpio(v: bv16)
      requires wires.Pins?
      modifies this
      ensures gpioRegVal == v && wires == WritePins(old(wires), v)
    {
      gpioRegVal := v;
      wires := WritePins(wires, gpioRegVal);
    }

    method SetCsHigh()
      requires Valid()
      modifies this
      ensures Valid() && wires.Pins? == old(wires.Pins?)
      ensures Device() == Deselect(old(Device()), true)
    {
      if wires.Pins? {
        WriteGpio(Set(gpioRegVal, CS_BIT));
      } else {
        wires := Registers(wires.latch, Deselect(wires.nor, true));
      }
    }

    method SetCsLow()
      requires Valid()
      modifies this
      ensures Valid() && wires.Pins? == old(wires.Pins?)
      ensures Device() == Select(old(Device()))
    {
      if wires.Pins? {
        WriteGpio(Clear(gpioRegVal, CS_BIT));
      } else {
        wires := Registers(wires.latch, Select(wires.nor));
      }
    }

    /** Moving the data pin while the clock is low shows the part nothing. */
    method SetDin(high: bool)
      requires wires.Pins? && gpioRegVal == wires.reg && !Clock(wires.reg)
      modifies this
      ensures wires.Pins? && gpioRegVal == wires.reg
      ensures Din(wires.reg) == high && !Clock(wires.reg) && Cs(wires.reg) == old(Cs(wires.reg))
      ensures Others(wires.reg) == old(Others(wires.reg)) && wires.nor == old(wires.nor)
      ensures Cs(wires.reg) ==> wires.inBits == []
      ensures !Cs(wires.reg) ==> wires.inBits == old(wires.inBits) && wires.outBits == old(wires.outBits)
    {
      if high {
        WriteGpio(Set(gpioRegVal, DIN_BIT));
      } else {
        WriteGpio(Clear(gpioRegVal, DIN_BIT));
      }
    }

    /** One clock pulse: the part takes the data pin in and moves to its next output bit. */
    method PulseClock()
      requires wires.Pins? && gpioRegVal == wires.reg && !Clock(wires.reg) && !Cs(wires.reg)
      requires |wires.inBits| < 8 && |wires.outBits| > 0
      modifies this
      ensures wires.Pins? && gpioRegVal == wires.reg && wires.reg == old(wires.reg)
      ensures var bits := old(wires.inBits) + [Din(wires.reg)];
        if |bits| < 8 then
          wires == Pins(wires.reg, bits, old(wires.outBits)[1..], old(wires.nor))
        else
          var nor := Recv(old(wires.nor), ByteOf(bits));
          wires == Pins(wires.reg, [], Bits(Out(nor)), nor)
    {
      hide WritePins, Set, Clear, Clock, Cs, Din, Out, Recv, Bits, ByteOf;
      ghost var reg := gpioRegVal;
      ClockRises(wires);
      WriteGpio(Set(gpioRegVal, CLOCK_BIT));
      ClockFalls(wires, reg);
      WriteGpio(Clear(gpioRegVal, CLOCK_BIT));
    }

    method GetBit() returns (bit: int)
      requires wires.Pins? && wires.outBits != []
      ensures bit == if wires.outBits[0] then 1 else 0
    {
      var data := ReadPins(wires);
      if Has(data, DOUT_BIT) {
        bit := 1;
      } else {
        bit := 0;
      }
    }

    /** Chip select goes low on a part that is not selected: a new frame. */
    method Prefix()
      requires Valid() && !Device().selected
      modifies this
      ensures Valid() && Device() == Select(old(Device())) && wires.Pins? == old(wires.Pins?)
    {
      if wires.Pins? {
        SetCsHigh();
        SetDin(false);
        WriteGpio(Clear(gpioRegVal, CLOCK_BIT));
        SetCsLow();
      } else {
        SetCsLow();
      }
    }

    method Suffix()
      requires Valid()
      modifies this
      ensures Valid() && Device() == Deselect(old(Device()), true) && wires.Pins? == old(wires.Pins?)
    {
      SetCsHigh();
      if wires.Pins? {
        SetDin(false);
      }
    }

    /** The part receives exactly the byte sent, over either back-end. */
    method SendByte(b: byte)
      requires Valid() && Device().selected
      modifies this
      ensures Valid() && Device() == Recv(old(Device()), b) && wires.Pins? == old(wires.Pins?)
    {
      if wires.Pins? {
        SendBits(b);
      } else {
        wires := Registers(Out(wires.nor), Recv(wires.nor, b));
      }
    }

    method SendBits(b: byte)
      requires Valid() && Device().selected && wires.Pins?
      modifies this
      ensures Valid() && Device() == Recv(old(Device()), b) && wires.Pins?
    {
      hide Out, Recv, And, FromBits;
      var mask: nat := DATA_MASK;
      var i := 0;
      assert Pow2(7) == DATA_MASK;
      while i < 8
        invariant 0 <= i <= 8
        invariant i < 8 ==> mask == Pow2(7 - i)
        invariant wires.Pins? && gpioRegVal == wires.reg && !Clock(wires.reg) && !Cs(wires.reg)
        invariant Others(wires.reg) == old(Others(wires.reg))
        invariant i < 8 ==>
          wires == Pins(wires.reg, Bits(b)[..i], old(wires.outBits)[i..], old(wires.nor))
        invariant i == 8 ==>
          var nor := Recv(old(wires.nor), b);
          wires == Pins(wires.reg, [], Bits(Out(nor)), nor)
      {
        MaskTest(b, 8, 7 - i);
        if And(mask, b) == 0 {
          SetDin(false);
        } else {
          SetDin(true);
        }
        assert Bits(b)[..i] + [Bits(b)[i]] == Bits(b)[..i + 1];
        assert ByteOf(Bits(b)) == b by { BitsRoundTrip(b, 8); }
        mask := mask / 2;
        PulseClock();
        i := i + 1;
      }
    }

    /** The driver returns exactly the byte the part was shifting out. */
    method RecvByte() returns (r: byte)
      requires Valid() && Device().selected
      modifies this
      ensures Valid() && wires.Pins? == old(wires.Pins?)
      ensures r == Out(old(Device())) && Device() == Recv(old(Device()), old(Filler()))
      ensures Filler() == old(Filler())
    {
      if wires.Pins? {
        r := RecvBits();
      } else {
        wires := Registers(Out(wires.nor), Recv(wires.nor, 0));
        r := wires.latch;
      }
    }

    method RecvBits() returns (r: byte)
      requires Valid() && Device().selected && wires.Pins?
      modifies this
      ensures Valid() && wires.Pins? && wires.reg == old(wires.reg)
      ensures r == Out(old(Device())) && Device() == Recv(old(Device()), old(Filler()))
    {
      hide Or, Out, Recv, Shift, FromBits, BitsOf, ByteOf;
      ghost var out := Bits(Out(Device()));
      ghost var din := Din(wires.reg);
      var mask: nat := DATA_MASK;
      var data: nat := 0;
      var i := 0;
      Powers();
      GatherEnds(out);
      while i < 8
        invariant 0 <= i <= 8
        invariant i < 8 ==> mask == Pow2(7 - i)
        invariant data == Shift(FromBits(out[..i]), 8 - i)
        invariant wires.Pins? && gpioRegVal == wires.reg && wires.reg == old(wires.reg)
        invariant i < 8 ==> wires == Pins(wires.reg, seq(i, _ => din), out[i..], old(wires.nor))
        invariant i == 8 ==>
          var nor := Recv(old(wires.nor), if din then 0xFF else 0);
          wires == Pins(wires.reg, [], Bits(Out(nor)), nor)
      {
        GatherStep(out, i);
        var bit := GetBit();
        if bit == 1 {
          data := Or(data, mask);
        }
        if i < 7 {
          MaskHalves(6 - i);
        }
        mask := mask / 2;
        ConstantBits(i, din);
        PulseClock();
        i := i + 1;
      }
      BitsRoundTrip(Out(old(Device())), 8);
      r := data;
    }

    method SendAddress(addr: nat)
      requires Valid() && Device().selected
      modifies this
      ensures Valid() && wires.Pins? == old(wires.Pins?)
      ensures Device() ==
        old(Device()).(frame := old(Device().frame) + [Byte2(addr), Byte1(addr), Byte0(addr)])
    {
      SendByte(Byte2(addr));
      SendByte(Byte1(addr));
      SendByte(Byte0(addr));
    }

    method WriteEnable()
      requires Valid() && Idle(Device())
      modifies this
      ensures Valid() && wires.Pins? == old(wires.Pins?)
      ensures Device() == old(Device()).(wel := true, log := old(Device().log) + [WriteEnabled])
    {
      Prefix();
      SendByte(SPI_CMD_WRITE_ENABLE);
      Suffix();
    }

    /** One poll: it returns the status and brings the end of a busy period one step closer. */
    method ReadStatus() returns (r: byte)
      requires Valid() && !Device().selected && Device().frame == []
      modifies this
      ensures Valid() && wires.Pins? == old(wires.Pins?)
      ensures r == Status(old(Device()))
      ensures !Device().selected && Device().frame == []
      ensures Device().busy == if old(Device().busy) == 0 then 0 else old(Device().busy) - 1
      ensures Finished(Device()) == Finished(old(Device()))
    {
      Prefix();
      SendByte(SPI_CMD_READ_STATUS);
      r := RecvByte();
      Suffix();
    }

    /** read_flash_id: the identification byte, which tells the size of the part. */
    method ReadFlashId() returns (r: byte)
      requires Valid() && Idle(Device())
      modifies this
      ensures Valid() && wires.Pins? == old(wires.Pins?) && Device() == old(Device())
      ensures r == Device().id
    {
      Prefix();
      SendByte(SPI_CMD_READ_IDROM);
      SendAddress(0);
      r := RecvByte();
      Suffix();
    }

    /** Polls until the part is ready; the part's own countdown bounds the polling. */
    method WaitForWrite()
      requires Valid() && !Device().selected && Device().frame == []
      modifies this
      ensures Valid() && wires.Pins? == old(wires.Pins?) && Device() == Finished(old(Device()))
    {
      var stat := ReadStatus();
      while And(stat, WRITE_IN_PROGRESS_MASK) != 0
        invariant Valid() && wires.Pins? == old(wires.Pins?)
        invariant !Device().selected && Device().frame == []
        invariant Finished(Device()) == Finished(old(Device()))
        invariant And(stat, WRITE_IN_PROGRESS_MASK) == 0 ==> Device().busy == 0
        decreases Device().busy, And(stat, WRITE_IN_PROGRESS_MASK)
      {
        stat := ReadStatus();
      }
    }

    method ReadPage(addr: nat, buff: array<byte>)
      requires Valid() && Idle(Device()) && buff.Length == PAGE_SIZE
      modifies this, buff
      ensures Valid() && wires.Pins? == old(wires.Pins?) && Device() == old(Device())
      ensures buff[..] == ReadAt(Device().mem, addr, PAGE_SIZE)
    {
      ghost var before := Device();
      Prefix();
      SendByte(SPI_CMD_READ);
      SendAddress(addr);
      ghost var fill := Filler();
      for i := 0 to PAGE_SIZE
        invariant Valid() && wires.Pins? == old(wires.Pins?)
        invariant Device() == before.(selected := true, frame := Device().frame)
        invariant |Device().frame| == 4 + i
        invariant Device().frame[..4] == [SPI_CMD_READ, Byte2(addr), Byte1(addr), Byte0(addr)]
        invariant buff[..i] == ReadAt(before.mem, addr, PAGE_SIZE)[..i]
      {
        ReadFrameOut(Device(), addr, Device().frame);
        buff[i] := RecvByte();
      }
      Suffix();
    }

    method WritePage(addr: nat, buff: array<byte>, offset: nat)
      requires Valid() && Idle(Device()) && offset + PAGE_SIZE <= buff.Length
      modifies this
      ensures Valid() && wires.Pins? == old(wires.Pins?)
      ensures var data := buff[offset..offset + PAGE_SIZE];
        Device() == old(Device()).(
          mem := ProgramAt(old(Device().mem), addr, data),
          log := old(Device().log) + [WriteEnabled, Programmed(addr % 0x100_0000, data)])
    {
      ghost var before := Device();
      ghost var data := buff[offset..offset + PAGE_SIZE];
      ghost var head := [SPI_CMD_PAGE_WRITE, Byte2(addr), Byte1(addr), Byte0(addr)];
      WriteEnable();
      ghost var enabled := Device();
      Prefix();
      SendByte(SPI_CMD_PAGE_WRITE);
      SendAddress(addr);
      for i := 0 to PAGE_SIZE
        invariant Valid() && wires.Pins? == old(wires.Pins?)
        invariant Device() == enabled.(selected := true, frame := head + data[..i])
      {
        var b := buff[offset + i];
        SendByte(b);
        assert head + data[..i] + [b] == head + data[..i + 1];
      }
      assert data[..PAGE_SIZE] == data;
      ProgramFrame(enabled, addr, data);
      Suffix();
      WaitForWrite();
      assert before.log + [WriteEnabled] + [Programmed(addr % 0x100_0000, data)] ==
             before.log + [WriteEnabled, Programmed(addr % 0x100_0000, data)];
    }

    method EraseSector(addr: nat)
      requires Valid() && Idle(Device())
      modifies this
      ensures Valid() && wires.Pins? == old(wires.Pins?)
      ensures Device() == old(Device()).(
          mem := EraseAt(old(Device().mem), addr),
          log := old(Device().log) + [WriteEnabled, Erased(addr % 0x100_0000)])
    {
      hide EraseAt, Execute, Out;
      ghost var before := Device();
      WriteEnable();
      ghost var enabled := Device();
      Prefix();
      SendByte(SPI_CMD_SECTOR_ERASE);
      SendAddress(addr);
      EraseFrame(enabled, addr);
      assert Device().frame == [0xD8, addr / 0x1_0000 % 0x100, addr / 0x100 % 0x100, addr % 0x100];
      Suffix();
      WaitForWrite();
      assert before.log + [WriteEnabled] + [Erased(addr % 0x100_0000)] ==
             before.log + [WriteEnabled, Erased(addr % 0x100_0000)];
    }
  }

  /** Equal bits accumulate; eight of them are all zeros or all ones. */
  lemma ConstantBits(i: nat, d: bool)
    ensures seq(i, _ => d) + [d] == seq(i + 1, _ => d)
    ensures ByteOf(seq(8, _ => d)) == if d then 0xFF else 0
  {
    var s := seq(8, _ => d);
    ConstantBitsUpTo(s, d, 8);
    assert s[..8] == s && Pow2(8) == 0x100;
  }

  lemma {:induction false} ConstantBitsUpTo(s: seq<bool>, d: bool, k: nat)
    requires k <= |s| && forall i | 0 <= i < |s| :: s[i] == d
    ensures FromBits(s[..k]) == if d then Pow2(k) - 1 else 0
  {
    if k > 0 {
      ConstantBitsUpTo(s, d, k - 1);
      assert s[..k][..k - 1] == s[..k - 1];
    }
  }
}
