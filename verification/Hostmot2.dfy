/** hostmot2.c: the direction and source registers of the I/O ports. A register word is its 32
    bits, bit k at index k; reading an address never written gives zeros. */
module Hostmot2 {
  import opened Bytes

  const HM2_GTAG_IOPORT: byte := 0x03
  const HM2_MAX_PINS := 144
  const HM2_MOD_OFFS_GPIO_DDR := 0x0100
  const HM2_MOD_OFFS_GPIO_ALT_SOURCE := 0x0200
  const HM2_PIN_OUTPUT := 0x80

  /** The ports whose two register banks lie apart: the source bank is 64 words above the direction
      bank. */
  const BANK_PORTS := 64

  datatype Module = Module(gtag: byte, base: nat)

  datatype Direction = Input | Output | Invalid

  type Word = w: seq<bool> | |w| == 32 witness seq(32, _ => false)

  function AllZeros(): Word { seq(32, _ => false) }

  function AllOnes(): Word { seq(32, _ => true) }

  type Registers = map<nat, Word>

  function At(regs: Registers, a: nat): Word { if a in regs then regs[a] else AllZeros() }

  function Ddr(base: nat, port: nat): nat { base + HM2_MOD_OFFS_GPIO_DDR + port * 4 }

  function AltSource(base: nat, port: nat): nat { base + HM2_MOD_OFFS_GPIO_ALT_SOURCE + port * 4 }

  ghost predicate InBanks(base: nat, ports: nat, a: nat) {
    exists p: nat | p < ports :: a == Ddr(base, p) || a == AltSource(base, p)
  }

  function PinCount(ports: nat, width: nat): nat { ports * width }

  /** The port of a pin, and its bit there. */
  function PortOf(pin: nat, width: nat): nat
    requires width > 0
  {
    pin / width
  }

  function BitOf(pin: nat, width: nat): (k: nat)
    requires width > 0
    ensures k < width
  {
    pin % width
  }

  /** The number of the pin on bit k of port p. */
  function PinOf(width: nat, p: nat, k: nat): nat { p * width + k }

  /** That pin is below `n` and has an output as its secondary function. */
  predicate Drives(pins: seq<byte>, width: nat, p: nat, k: nat, n: nat)
    requires n <= |pins|
  {
    k < width && PinOf(width, p, k) < n && pins[PinOf(width, p, k)] >= HM2_PIN_OUTPUT
  }

  /** A pin number and the port and bit it stands for determine each other. */
  lemma PinPlace(width: nat, n: nat, p: nat, k: nat)
    requires k < width
    ensures PinOf(width, p, k) == n <==> p == PortOf(n, width) && k == BitOf(n, width)
  {
    assert n == n / width * width + n % width;
    if p * width + k == n {
      ModUnique(n, p, k, width);
    }
  }

  lemma PortOfPin(n: nat, ports: nat, width: nat)
    requires n < PinCount(ports, width)
    ensures width > 0 && PortOf(n, width) < ports
  {
    var q := n / width;
    assert q * width <= n;
    if q >= ports {
      MulMonotone(ports, q, width);
    }
  }

  lemma MulMonotone(x: nat, y: nat, z: nat)
    requires x <= y
    ensures x * z <= y * z
  {
    assert (y - x) * z >= 0;
  }

  /** The direction bits of all ports: those of `before`, and set for the pins below `n` that drive. */
  ghost predicate Directions(regs: Registers, before: Registers, base: nat, ports: nat, width: nat,
                             pins: seq<byte>, n: nat)
    requires n <= |pins|
  {
    forall p: nat, k: nat | p < ports && k < 32 ::
      At(regs, Ddr(base, p))[k] == (At(before, Ddr(base, p))[k] || Drives(pins, width, p, k, n))
  }

  ghost predicate OutsideBanks(regs: Registers, before: Registers, base: nat, ports: nat) {
    forall a: nat | !InBanks(base, ports, a) :: At(regs, a) == At(before, a)
  }

  ghost predicate Sources(regs: Registers, base: nat, ports: nat) {
    forall p: nat | p < ports :: At(regs, AltSource(base, p)) == AllOnes()
  }

  /** The next pin: its bit is set if it drives, and no other bit changes. */
  lemma NextPin(regs: Registers, regs': Registers, before: Registers, base: nat, ports: nat, width: nat,
                pins: seq<byte>, n: nat)
    requires n < |pins| && width <= 32 && Directions(regs, before, base, ports, width, pins, n)
    requires width > 0
    requires var a := Ddr(base, PortOf(n, width));
      regs' == if pins[n] >= HM2_PIN_OUTPUT then regs[a := At(regs, a)[BitOf(n, width) := true]] else regs
    ensures Directions(regs', before, base, ports, width, pins, n + 1)
  {
    hide PortOf, BitOf, PinOf;
    forall p: nat, k: nat | p < ports && k < 32
      ensures At(regs', Ddr(base, p))[k] == (At(before, Ddr(base, p))[k] || Drives(pins, width, p, k, n + 1))
    {
      assert Ddr(base, p) == Ddr(base, PortOf(n, width)) <==> p == PortOf(n, width);
      if k < width {
        PinPlace(width, n, p, k);
        assert Drives(pins, width, p, k, n + 1) <==>
               Drives(pins, width, p, k, n) || (PinOf(width, p, k) == n && pins[n] >= HM2_PIN_OUTPUT);
      }
    }
  }

  class HostMot2 {
    const modules: seq<Module>
    const ioPorts: nat
    const portWidth: nat
    const pins: seq<byte>
    var regs: Registers

    constructor (modules: seq<Module>, ioPorts: nat, portWidth: nat, pins: seq<byte>, regs: Registers)
      ensures this.modules == modules && this.ioPorts == ioPorts && this.portWidth == portWidth
      ensures this.pins == pins && this.regs == regs
    {
      this.modules, this.ioPorts, this.portWidth, this.pins, this.regs := modules, ioPorts, portWidth, pins, regs;
    }

    /** hm2_find_module: the first module with the tag, or none. */
    method FindModule(gtag: byte) returns (i: int)
      ensures if exists j | 0 <= j < |modules| :: modules[j].gtag == gtag
              then 0 <= i < |modules| && modules[i].gtag == gtag && forall j | 0 <= j < i :: modules[j].gtag != gtag
              else i == -1
    {
      i := 0;
      while i < |modules|
        invariant 0 <= i <= |modules| && forall j | 0 <= j < i :: modules[j].gtag != gtag
      {
        if modules[i].gtag == gtag {
          return;
        }
        i := i + 1;
      }
      return -1;
    }

    /** The first I/O port module, which the port operations take. */
    ghost predicate PortsAt(base: nat) {
      exists i | 0 <= i < |modules| ::
        && modules[i].gtag == HM2_GTAG_IOPORT && modules[i].base == base
        && forall j | 0 <= j < i :: modules[j].gtag != HM2_GTAG_IOPORT
    }

    ghost predicate HasPorts() { exists i | 0 <= i < |modules| :: modules[i].gtag == HM2_GTAG_IOPORT }

    lemma PortsExist(base: nat)
      requires PortsAt(base)
      ensures HasPorts()
    {
    }

    /** hm2_set_pin_direction: one bit of one direction register, or nothing at all. */
    method SetPinDirection(pin: nat, direction: Direction, ghost base: nat)
      requires (HasPorts() ==> PortsAt(base)) && portWidth <= 32
      modifies this
      ensures if HasPorts() && pin < PinCount(ioPorts, portWidth) && !direction.Invalid? then
          portWidth > 0 &&
          var a := Ddr(base, PortOf(pin, portWidth));
          regs == old(regs)[a := At(old(regs), a)[BitOf(pin, portWidth) := direction.Output?]]
        else regs == old(regs)
    {
      var md := FindModule(HM2_GTAG_IOPORT);
      if md == -1 {
        return;
      }
      if pin >= PinCount(ioPorts, portWidth) {
        return;
      }
      PortOfPin(pin, ioPorts, portWidth);
      var addr := modules[md].base;
      var a := addr + HM2_MOD_OFFS_GPIO_DDR + PortOf(pin, portWidth) * 4;
      var data := At(regs, a);
      match direction {
        case Input => data := data[BitOf(pin, portWidth) := false];
        case Output => data := data[BitOf(pin, portWidth) := true];
        case Invalid => return;
      }
      regs := regs[a := data];
    }

    /** hm2_enable_all_module_outputs: all source registers become ones, and of the direction bits
        exactly those of pins whose secondary function is an output are set; the other direction
        bits and all other registers keep their values. */
    method EnableAllModuleOutputs(ghost base: nat)
      requires PortsAt(base) && portWidth <= 32 && ioPorts <= BANK_PORTS
      requires PinCount(ioPorts, portWidth) <= |pins| == HM2_MAX_PINS
      modifies this
      ensures Sources(regs, base, ioPorts)
      ensures Directions(regs, old(regs), base, ioPorts, portWidth, pins, PinCount(ioPorts, portWidth))
      ensures OutsideBanks(regs, old(regs), base, ioPorts)
    {
      hide Directions, OutsideBanks, Sources, InBanks, Drives, PinCount, PortsAt;
      WriteSources(base);
      var numPins := PinCount(ioPorts, portWidth);
      for i := 0 to numPins
        invariant Sources(regs, base, ioPorts) && OutsideBanks(regs, old(regs), base, ioPorts)
        invariant Directions(regs, old(regs), base, ioPorts, portWidth, pins, i)
      {
        EnablePin(i, old(regs), base);
      }
    }

    /** One pass of the pin loop. */
    method EnablePin(i: nat, ghost before: Registers, ghost base: nat)
      requires PortsAt(base) && portWidth <= 32 && ioPorts <= BANK_PORTS
      requires i < PinCount(ioPorts, portWidth) && i < |pins|
      requires Sources(regs, base, ioPorts) && OutsideBanks(regs, before, base, ioPorts)
      requires Directions(regs, before, base, ioPorts, portWidth, pins, i)
      modifies this
      ensures Sources(regs, base, ioPorts) && OutsideBanks(regs, before, base, ioPorts)
      ensures Directions(regs, before, base, ioPorts, portWidth, pins, i + 1)
    {
      hide Directions, OutsideBanks, Sources, InBanks, Drives, PinCount, PortOf, BitOf, PortsAt, HasPorts;
      PortOfPin(i, ioPorts, portWidth);
      PortsExist(base);
      ghost var was := regs;
      if pins[i] >= HM2_PIN_OUTPUT {
        SetPinDirection(i, Output, base);
        DirectionWrite(was, regs, before, base, ioPorts, PortOf(i, portWidth));
      }
      NextPin(was, regs, before, base, ioPorts, portWidth, pins, i);
    }

    method WriteSources(ghost base: nat)
      requires PortsAt(base) && ioPorts <= BANK_PORTS
      modifies this
      ensures Sources(regs, base, ioPorts) && OutsideBanks(regs, old(regs), base, ioPorts)
      ensures Directions(regs, old(regs), base, ioPorts, portWidth, pins, 0)
    {
      var md := FindModule(HM2_GTAG_IOPORT);
      var addr := modules[md].base;
      for i := 0 to ioPorts
        invariant forall p: nat | p < i :: At(regs, AltSource(base, p)) == AllOnes()
        invariant forall p: nat | p < ioPorts :: At(regs, Ddr(base, p)) == At(old(regs), Ddr(base, p))
        invariant OutsideBanks(regs, old(regs), base, ioPorts)
      {
        assert InBanks(base, ioPorts, AltSource(base, i));
        regs := regs[addr + HM2_MOD_OFFS_GPIO_ALT_SOURCE + i * 4 := AllOnes()];
      }
    }

    /** hm2_safe_io: both banks become zeros and nothing else changes. */
    method SafeIo(ghost base: nat)
      requires PortsAt(base)
      modifies this
      ensures forall p: nat | p < ioPorts ::
                At(regs, AltSource(base, p)) == AllZeros() && At(regs, Ddr(base, p)) == AllZeros()
      ensures forall a: nat | !InBanks(base, ioPorts, a) :: At(regs, a) == At(old(regs), a)
    {
      var md := FindModule(HM2_GTAG_IOPORT);
      var addr := modules[md].base;
      for i := 0 to ioPorts
        invariant forall p: nat | p < i ::
                    At(regs, AltSource(base, p)) == AllZeros() && At(regs, Ddr(base, p)) == AllZeros()
        invariant forall a: nat | !InBanks(base, ioPorts, a) :: At(regs, a) == At(old(regs), a)
      {
        assert InBanks(base, ioPorts, AltSource(base, i)) && InBanks(base, ioPorts, Ddr(base, i));
        ClearPort(addr, i);
      }
    }

    /** One port's two registers become zeros. */
    method ClearPort(addr: nat, port: nat)
      modifies this
      ensures forall a: nat :: At(regs, a) ==
                if a == AltSource(addr, port) || a == Ddr(addr, port) then AllZeros() else At(old(regs), a)
    {
      regs := regs[addr + HM2_MOD_OFFS_GPIO_ALT_SOURCE + port * 4 := AllZeros()];
      regs := regs[addr + HM2_MOD_OFFS_GPIO_DDR + port * 4 := AllZeros()];
    }
  }

  /** The outcome of hm2_enable_all_module_outputs on the registers themselves: the register of port p
      is 0x100 + 4p above the module for directions and 0x200 + 4p for sources, and pin p * width + k
      is bit k there. */
  lemma OutputsEnabled(regs: Registers, before: Registers, base: nat, ports: nat, width: nat, pins: seq<byte>,
                       p: nat, k: nat)
    requires PinCount(ports, width) <= |pins| && p < ports && k < 32
    requires Sources(regs, base, ports)
    requires Directions(regs, before, base, ports, width, pins, PinCount(ports, width))
    ensures var a := base + 0x200 + 4 * p; a in regs && forall j | 0 <= j < 32 :: regs[a][j]
    ensures var a := base + 0x100 + 4 * p;
      var was := a in before && before[a][k];
      (a in regs && regs[a][k]) ==
      (was || (k < width && p * width + k < |pins| && pins[p * width + k] >= 0x80))
  {
    assert Ddr(base, p) == base + 0x100 + 4 * p && AltSource(base, p) == base + 0x200 + 4 * p;
    assert At(regs, AltSource(base, p)) == AllOnes();
    assert AllOnes()[0] && !AllZeros()[0];
    assert At(regs, Ddr(base, p))[k] ==
           (At(before, Ddr(base, p))[k] || Drives(pins, width, p, k, PinCount(ports, width)));
    if k < width {
      PinBelow(ports, width, p, k);
    }
  }

  lemma PinBelow(ports: nat, width: nat, p: nat, k: nat)
    requires p < ports && k < width
    ensures p * width + k < ports * width
  {
    MulMonotone(p + 1, ports, width);
  }

  /** And no other register has changed. */
  lemma OthersKept(regs: Registers, before: Registers, base: nat, ports: nat, a: nat)
    requires OutsideBanks(regs, before, base, ports)
    requires forall p: nat | p < ports :: a != base + 0x100 + 4 * p && a != base + 0x200 + 4 * p
    ensures forall k | 0 <= k < 32 :: (a in regs && regs[a][k]) == (a in before && before[a][k])
  {
    assert !InBanks(base, ports, a) by {
      forall p: nat | p < ports
        ensures a != Ddr(base, p) && a != AltSource(base, p)
      {
        assert a != base + 0x100 + 4 * p && a != base + 0x200 + 4 * p;
      }
    }
    assert At(regs, a) == At(before, a);
  }

  /** A write to one direction register stays inside the banks and off the source registers. */
  lemma DirectionWrite(was: Registers, regs: Registers, before: Registers, base: nat, ports: nat, port: nat)
    requires port < ports <= BANK_PORTS
    requires Sources(was, base, ports) && OutsideBanks(was, before, base, ports)
    requires forall a: nat | a != Ddr(base, port) :: At(regs, a) == At(was, a)
    ensures Sources(regs, base, ports) && OutsideBanks(regs, before, base, ports)
  {
    assert InBanks(base, ports, Ddr(base, port));
  }
}
