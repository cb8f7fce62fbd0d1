/** spi_eeprom_dev_t: the page, sector and chip-select operations the file engine calls, bound to
    the local or to the remote driver when the board is opened. Whichever it is, the operations
    are those of the abstract flash. */
module EepromAccess {
  import opened Bytes
  import opened Flash
  import NorDevice
  import LocalDriver
  import RemoteBoard
  import RemoteDriver

  class Access {
    const remoteFlash: bool
    const local: LocalDriver.Driver
    const remote: RemoteDriver.Driver

    constructor (remoteFlash: bool, local: LocalDriver.Driver, remote: RemoteDriver.Driver)
      ensures this.remoteFlash == remoteFlash && this.local == local && this.remote == remote
    {
      this.remoteFlash, this.local, this.remote := remoteFlash, local, remote;
    }

    /** The part is idle: no frame open, nothing enabled, nothing in progress. */
    ghost predicate Valid()
      reads this, local, remote
    {
      if remoteFlash then remote.Valid() && RemoteBoard.Idle(remote.board)
      else local.Valid() && NorDevice.Idle(local.Device())
    }

    ghost function Contents(): (f: seq<byte>)
      requires Valid()
      reads this, local, remote
      ensures Geometry(|f|)
    {
      if remoteFlash then remote.board.mem else local.Device().mem
    }

    /** Commands the part had to ignore. */
    ghost function Faults(): nat
      reads this, local, remote
    {
      if remoteFlash then remote.board.faults else local.Device().faults
    }

    /** Whichever driver is bound, its part is the flash. */
    lemma BoundFlash()
      requires Valid()
      ensures Contents() == if remoteFlash then remote.board.mem else local.wires.nor.mem
      ensures Faults() == if remoteFlash then remote.board.faults else local.wires.nor.faults
    {
    }

    method ReadPage(addr: nat, buff: array<byte>)
      requires Valid() && addr < U32_LIMIT && buff.Length == PAGE_SIZE
      modifies local, remote, buff
      ensures Valid() && Contents() == old(Contents()) && Faults() == old(Faults())
      ensures buff[..] == ReadAt(Contents(), addr, PAGE_SIZE)
    {
      if remoteFlash {
        remote.ReadPage(addr, buff);
      } else {
        local.ReadPage(addr, buff);
      }
    }

    method WritePage(addr: nat, buff: array<byte>, offset: nat)
      requires Valid() && addr < U32_LIMIT && offset + PAGE_SIZE <= buff.Length
      modifies local, remote
      ensures Valid() && Faults() == old(Faults())
      ensures Contents() == ProgramAt(old(Contents()), addr, buff[offset..offset + PAGE_SIZE])
    {
      if remoteFlash {
        remote.WritePage(addr, buff, offset);
      } else {
        local.WritePage(addr, buff, offset);
      }
    }

    method EraseSector(addr: nat)
      requires Valid() && addr < U32_LIMIT
      modifies local, remote
      ensures Valid() && Contents() == EraseAt(old(Contents()), addr) && Faults() == old(Faults())
    {
      if remoteFlash {
        remote.EraseSector(addr);
      } else {
        local.EraseSector(addr);
      }
    }

    /** Around an erase run the local driver drives chip select high again; an idle part does not
        notice. */
    method ParkChipSelect()
      requires Valid()
      modifies local
      ensures Valid() && Contents() == old(Contents()) && Faults() == old(Faults())
    {
      if !remoteFlash {
        local.SetCsHigh();
      }
    }
  }
}
