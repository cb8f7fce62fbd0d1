/** The abstract flash: a byte sequence, read in pages, erased to 0xFF in sectors and programmed
    by AND. Both drivers are proved against these functions and the file engine is written over
    them. Addresses wrap at the size of the memory, as the upper address bits of such a part are
    not decoded. */
module Flash {
  import opened Bytes

  const PAGE_SIZE := 256
  const SECTOR_SIZE := 65536

  /** Sizes a part may have: a power of two of at least a sector, within the 24-bit space. */
  predicate Geometry(size: nat) {
    size in {0x1_0000, 0x2_0000, 0x4_0000, 0x8_0000, 0x10_0000, 0x20_0000, 0x40_0000, 0x80_0000, 0x100_0000}
  }

  /** An address reduced to the size of the memory. */
  function Wrap(addr: nat, size: nat): (a: nat)
    requires size > 0
    ensures a < size
  {
    if addr < size then addr else Wrap(addr - size, size)
  }

  /** What a flash part has been made to do, as its log records it. */
  datatype Operation = WriteEnabled | Programmed(addr: nat, data: seq<byte>) | Erased(at: nat)

  function ReadAt(f: seq<byte>, addr: nat, n: nat): (page: seq<byte>)
    requires |f| > 0
    ensures |page| == n
  {
    seq(n, i requires 0 <= i < n => f[Wrap(addr + i, |f|)])
  }

  /** First address of the page, and of the sector, that `addr` falls in. */
  function PageBase(size: nat, addr: nat): nat
    requires size > 0
  {
    Wrap(addr, size) / PAGE_SIZE * PAGE_SIZE
  }

  function SectorBase(size: nat, addr: nat): nat
    requires size > 0
  {
    Wrap(addr, size) / SECTOR_SIZE * SECTOR_SIZE
  }

  /** Which of the bytes of a page sent from `addr` on lands at address `i` of that page. */
  function SentIndex(addr: nat, i: nat): nat { (i - addr) % PAGE_SIZE }

  /** A byte read without reaching the end of the memory. */
  lemma ReadPlace(f: seq<byte>, addr: nat, n: nat, i: nat)
    requires |f| > 0 && i < n
    ensures ReadAt(f, addr, n)[i] == f[Wrap(addr + i, |f|)]
    ensures addr + i < |f| ==> ReadAt(f, addr, n)[i] == f[addr + i]
  {
  }

  /** Page program: 256 bytes sent from `addr` on wrap within their page, and programming can
      only clear bits. */
  function ProgramAt(f: seq<byte>, addr: nat, data: seq<byte>): (f': seq<byte>)
    requires |f| > 0 && |data| == PAGE_SIZE
    ensures |f'| == |f|
  {
    var base := PageBase(|f|, addr);
    seq(|f|, i requires 0 <= i < |f| =>
      if base <= i < base + PAGE_SIZE then And8(f[i], data[SentIndex(addr, i)]) else f[i])
  }

  function EraseAt(f: seq<byte>, addr: nat): (f': seq<byte>)
    requires |f| > 0
    ensures |f'| == |f|
  {
    var base := SectorBase(|f|, addr);
    seq(|f|, i requires 0 <= i < |f| => if base <= i < base + SECTOR_SIZE then 0xFF else f[i])
  }

  /** `n` sectors erased one after the other, as the erase loops do. */
  ghost function EraseSectors(f: seq<byte>, addr: nat, n: nat): (f': seq<byte>)
    requires |f| > 0
    ensures |f'| == |f|
  {
    if n == 0 then f else EraseAt(EraseSectors(f, addr, n - 1), addr + (n - 1) * SECTOR_SIZE)
  }

  /** The first `n` pages of an image programmed one after the other, as the programming loops do. */
  ghost function ProgramPages(f: seq<byte>, addr: nat, image: seq<byte>, n: nat): (f': seq<byte>)
    requires |f| > 0 && n * PAGE_SIZE <= |image|
    ensures |f'| == |f|
  {
    if n == 0 then f
    else
      var cut := (n - 1) * PAGE_SIZE;
      ProgramAt(ProgramPages(f, addr, image, n - 1), addr + cut, image[cut..cut + PAGE_SIZE])
  }

  // Runs: the engine erases sectors and programs pages from a start address on, over the end of the
  // memory and on from 0 if need be

  /** How far behind `start` address `i` is, going round the end of the memory. */
  function RunIndex(start: nat, i: nat, size: nat): (q: nat)
    requires start < size && i < size
    ensures q < size && Wrap(start + q, size) == i
  {
    if start <= i then i - start else size - start + i
  }

  /** In two rounds a run passes every address twice. */
  lemma RunPlace(start: nat, q: nat, size: nat)
    requires start < size && q < 2 * size
    ensures RunIndex(start, Wrap(start + q, size), size) == if q < size then q else q - size
  {
    WrapRounds(start, q, size);
  }

  lemma {:induction false} PageWithin(addr: nat, size: nat)
    requires size > 0 && size % PAGE_SIZE == 0 && addr % PAGE_SIZE == 0
    ensures PageBase(size, addr) == Wrap(addr, size) && Wrap(addr, size) + PAGE_SIZE <= size
  {
    if addr >= size {
      PageWithin(addr - size, size);
    }
  }

  lemma {:induction false} SectorWithin(addr: nat, size: nat)
    requires size > 0 && size % SECTOR_SIZE == 0 && addr % SECTOR_SIZE == 0
    ensures SectorBase(size, addr) == Wrap(addr, size) && Wrap(addr, size) + SECTOR_SIZE <= size
  {
    if addr >= size {
      SectorWithin(addr - size, size);
    }
  }

  lemma SectorRoom(k: nat, size: nat)
    requires size % SECTOR_SIZE == 0 && k * SECTOR_SIZE < size
    ensures (k + 1) * SECTOR_SIZE <= size
  {
  }

  lemma PageRoom(k: nat, size: nat)
    requires size % PAGE_SIZE == 0 && k * PAGE_SIZE < size
    ensures (k + 1) * PAGE_SIZE <= size
  {
  }

  /** Erasing a run of sectors sets exactly that run to 0xFF, however far it goes round. */
  lemma {:induction false} EraseSectorsExact(f: seq<byte>, start: nat, n: nat)
    requires |f| > 0 && |f| % SECTOR_SIZE == 0 && start % SECTOR_SIZE == 0 && start < |f|
    ensures forall i | 0 <= i < |f| ::
              EraseSectors(f, start, n)[i] == if RunIndex(start, i, |f|) < n * SECTOR_SIZE then 0xFF else f[i]
  {
    hide Wrap, RunIndex, SectorBase;
    if n > 0 {
      var cut := (n - 1) * SECTOR_SIZE;
      EraseSectorsExact(f, start, n - 1);
      SectorWithin(start + cut, |f|);
      if cut < |f| {
        assert cut + SECTOR_SIZE <= |f| by { SectorRoom(n - 1, |f|); }
        forall i | 0 <= i < |f|
          ensures Wrap(start + cut, |f|) <= i < Wrap(start + cut, |f|) + SECTOR_SIZE <==>
                  cut <= RunIndex(start, i, |f|) < cut + SECTOR_SIZE
        {
          SectorOfRun(start, cut, i, |f|);
        }
      }
    }
  }

  /** The sector at place `cut` of a run covers the next SECTOR_SIZE places. */
  lemma SectorOfRun(start: nat, cut: nat, i: nat, size: nat)
    requires start < size && i < size && cut + SECTOR_SIZE <= size && Wrap(start + cut, size) + SECTOR_SIZE <= size
    ensures Wrap(start + cut, size) <= i < Wrap(start + cut, size) + SECTOR_SIZE <==>
            cut <= RunIndex(start, i, size) < cut + SECTOR_SIZE
  {
    WrapRounds(start, cut, size);
  }

  lemma WrapRounds(start: nat, cut: nat, size: nat)
    requires start < size && cut < 2 * size
    ensures var from := if cut < size then cut else cut - size;
      Wrap(start + cut, size) == if start + from < size then start + from else start + from - size
  {
    var from := if cut < size then cut else cut - size;
    if cut >= size {
      assert Wrap(start + cut, size) == Wrap(start + from, size);
    }
  }

  /** A page program at a page boundary does not wrap within its page. */
  lemma ProgramAtAligned(f: seq<byte>, addr: nat, data: seq<byte>)
    requires |f| > 0 && |f| % PAGE_SIZE == 0 && addr % PAGE_SIZE == 0 && |data| == PAGE_SIZE
    ensures var at := Wrap(addr, |f|);
      at + PAGE_SIZE <= |f| && forall i | 0 <= i < |f| ::
        ProgramAt(f, addr, data)[i] == if at <= i < at + PAGE_SIZE then And8(f[i], data[i - at]) else f[i]
  {
    hide And8, Wrap;
    PageWithin(addr, |f|);
    var at := Wrap(addr, |f|);
    forall i | at <= i < at + PAGE_SIZE
      ensures SentIndex(addr, i) == i - at
    {
    }
  }

  /** What programming an image of up to two rounds makes of the byte at place `q` of the run. */
  function RunByte(was: byte, image: seq<byte>, n: nat, q: nat, size: nat): byte
    requires n <= |image|
  {
    if q + size < n then And8(And8(was, image[q]), image[q + size])
    else if q < n then And8(was, image[q]) else was
  }

  /** Programming pages ANDs them onto exactly their own run. */
  lemma {:induction false} ProgramPagesExact(f: seq<byte>, start: nat, image: seq<byte>, n: nat)
    requires |f| > 0 && |f| % PAGE_SIZE == 0 && start % PAGE_SIZE == 0 && start < |f|
    requires n * PAGE_SIZE <= |image| && n * PAGE_SIZE <= 2 * |f|
    ensures forall i | 0 <= i < |f| ::
              ProgramPages(f, start, image, n)[i] ==
              RunByte(f[i], image, n * PAGE_SIZE, RunIndex(start, i, |f|), |f|)
  {
    hide And8, Wrap, RunIndex, ProgramAt, RunByte;
    if n == 0 {
      NoPages(f, image, start);
    } else {
      var cut := (n - 1) * PAGE_SIZE;
      var g, page := ProgramPages(f, start, image, n - 1), image[cut..cut + PAGE_SIZE];
      ProgramPagesExact(f, start, image, n - 1);
      ProgramAtAligned(g, start + cut, page);
      if cut < |f| {
        PageRoom(n - 1, |f|);
      }
      forall i | 0 <= i < |f|
        ensures ProgramPages(f, start, image, n)[i] ==
                RunByte(f[i], image, n * PAGE_SIZE, RunIndex(start, i, |f|), |f|)
      {
        PageOfRun(start, cut, i, |f|);
        NextPage(f[i], image, n - 1, RunIndex(start, i, |f|), |f|);
      }
    }
  }

  lemma NoPages(f: seq<byte>, image: seq<byte>, start: nat)
    requires start < |f|
    ensures forall i | 0 <= i < |f| :: RunByte(f[i], image, 0, RunIndex(start, i, |f|), |f|) == f[i]
  {
  }

  /** One page more, at its places of the run. */
  lemma NextPage(was: byte, image: seq<byte>, n: nat, q: nat, size: nat)
    requires (n + 1) * PAGE_SIZE <= |image| && q < size && n * PAGE_SIZE < 2 * size
    requires (n + 1) * PAGE_SIZE <= if n * PAGE_SIZE < size then size else 2 * size
    ensures var cut := n * PAGE_SIZE;
      var from := if cut < size then cut else cut - size;
      RunByte(was, image, (n + 1) * PAGE_SIZE, q, size) ==
      if from <= q < from + PAGE_SIZE then
        And8(RunByte(was, image, cut, q, size), image[cut..cut + PAGE_SIZE][q - from])
      else RunByte(was, image, cut, q, size)
  {
    hide And8;
  }

  /** The page at place `cut` of a run covers the next PAGE_SIZE places, in the run's first or
      second round. */
  lemma PageOfRun(start: nat, cut: nat, i: nat, size: nat)
    requires start < size && i < size && Wrap(start + cut, size) + PAGE_SIZE <= size
    requires cut + PAGE_SIZE <= if cut < size then size else 2 * size
    ensures var at, q := Wrap(start + cut, size), RunIndex(start, i, size);
      var from := if cut < size then cut else cut - size;
      && (at <= i < at + PAGE_SIZE <==> from <= q < from + PAGE_SIZE)
      && (at <= i < at + PAGE_SIZE ==> i - at == q - from)
  {
    WrapRounds(start, cut, size);
  }

  lemma {:induction false} WrapMany(addr: nat, k: nat, size: nat)
    requires size > 0
    ensures Wrap(addr + k * size, size) == Wrap(addr, size)
  {
    if k > 0 {
      WrapMany(addr, k - 1, size);
      assert addr + k * size == addr + (k - 1) * size + size;
    }
  }

  // The operations byte by byte, at any address: it stands for its distance `a` behind the last of
  // the `k` ends of the memory it has passed

  lemma ReadBytes(f: seq<byte>, addr: nat, n: nat, i: nat, k: nat, a: nat)
    requires i < n && a < |f| && addr + i == a + k * |f|
    ensures ReadAt(f, addr, n)[i] == f[a]
  {
    WrapMany(a, k, |f|);
    ReadPlace(f, addr, n, i);
  }

  lemma EraseBytes(f: seq<byte>, addr: nat, k: nat, a: nat, i: nat)
    requires a < |f| && addr == a + k * |f| && i < |f|
    ensures EraseAt(f, addr)[i] == if i / 0x1_0000 == a / 0x1_0000 then 0xFF else f[i]
  {
    WrapMany(a, k, |f|);
    assert SectorBase(|f|, addr) == a / 0x1_0000 * 0x1_0000;
  }

  lemma ProgramBytes(f: seq<byte>, addr: nat, data: seq<byte>, k: nat, a: nat, i: nat)
    requires |f| % 256 == 0 && |data| == 256 && a < |f| && addr == a + k * |f| && i < |f|
    ensures ProgramAt(f, addr, data)[i] == if i / 256 == a / 256 then And(f[i], data[(i - a) % 256]) else f[i]
  {
    hide And, Wrap;
    WrapMany(a, k, |f|);
    assert PageBase(|f|, addr) == a / 256 * 256 by { WrapSmall(a, |f|); }
    SentIndexLaps(addr, k, a, i, |f|);
  }

  lemma WrapSmall(a: nat, size: nat)
    requires a < size
    ensures Wrap(a, size) == a
  {
  }

  lemma SentIndexLaps(addr: nat, k: nat, a: nat, i: nat, size: nat)
    requires size % 256 == 0 && addr == a + k * size
    ensures SentIndex(addr, i) == (i - a) % 256
  {
    var m, x := size / 256, i - a;
    assert k * size == (k * m) * 256 by { assert size == m * 256; }
    ModUnique(i - addr, x / 256 - k * m, x % 256, 256);
  }

  /** Only the low 24 bits of an address reach the part, and they are enough. */
  lemma WrapLow(addr: nat, k: nat, size: nat)
    requires Geometry(size)
    ensures Wrap(addr % 0x100_0000 + k, size) == Wrap(addr + k, size)
  {
    Wrap24(addr % 0x100_0000 + k, addr / 0x100_0000, size);
  }

  lemma {:induction false} Wrap24(addr: nat, q: nat, size: nat)
    requires Geometry(size)
    ensures Wrap(addr + q * 0x100_0000, size) == Wrap(addr, size)
  {
    if q > 0 {
      Wrap24(addr, q - 1, size);
      var before := addr + (q - 1) * 0x100_0000;
      var parts := Parts(size);
      WrapMany(before, parts, size);
    }
  }

  /** How many times a part fits the 24-bit space. */
  lemma Parts(size: nat) returns (k: nat)
    requires Geometry(size)
    ensures k * size == 0x100_0000
  {
    k := if size == 0x1_0000 then 0x100 else if size == 0x2_0000 then 0x80 else if size == 0x4_0000 then 0x40
         else if size == 0x8_0000 then 0x20 else if size == 0x10_0000 then 0x10 else if size == 0x20_0000 then 8
         else if size == 0x40_0000 then 4 else if size == 0x80_0000 then 2 else 1;
  }

  lemma SentIndexWraps(addr: nat, i: nat)
    ensures SentIndex(addr % 0x100_0000, i) == SentIndex(addr, i)
  {
    var x := i - addr % 0x100_0000;
    ModUnique(i - addr, x / PAGE_SIZE - addr / 0x100_0000 * 0x1_0000, x % PAGE_SIZE, PAGE_SIZE);
  }

  lemma ProgramWraps(f: seq<byte>, addr: nat, data: seq<byte>)
    requires Geometry(|f|) && |data| == PAGE_SIZE
    ensures ProgramAt(f, addr % 0x100_0000, data) == ProgramAt(f, addr, data)
  {
    WrapLow(addr, 0, |f|);
    forall i | 0 <= i < |f|
      ensures SentIndex(addr % 0x100_0000, i) == SentIndex(addr, i)
    {
      SentIndexWraps(addr, i);
    }
  }

  lemma EraseWraps(f: seq<byte>, addr: nat)
    requires Geometry(|f|)
    ensures EraseAt(f, addr % 0x100_0000) == EraseAt(f, addr)
  {
    WrapLow(addr, 0, |f|);
  }
}
