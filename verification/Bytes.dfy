/** Bytes and their arithmetic. The program's u8, u16 and u32 values are ints here, and the shifts
    and masks it applies to them are `/` and `%`. Only the memory-mapped register words, which the
    program changes bit by bit, are bit-vectors. */
module Bytes {

  type byte = b: int | 0 <= b < 0x100

  const U32_LIMIT := 0x1_0000_0000

  /** `(n >> shift) & 0xFF` for shift = 0, 8, 16, 24. */
  function Byte0(n: nat): byte { n % 0x100 }

  function Byte1(n: nat): byte { n / 0x100 % 0x100 }

  function Byte2(n: nat): byte { n / 0x1_0000 % 0x100 }

  function Byte3(n: nat): byte { n / 0x100_0000 % 0x100 }

  /** Two and four bytes in memory, low byte first. */
  function Le16(n: nat): (s: seq<byte>) { [Byte0(n), Byte1(n)] }

  function Le32(n: nat): (s: seq<byte>) { [Byte0(n), Byte1(n), Byte2(n), Byte3(n)] }

  /** Three bytes, most significant first, put a 24-bit number back together. */
  lemma Bytes24(n: nat)
    ensures Byte2(n) * 0x1_0000 + Byte1(n) * 0x100 + Byte0(n) == n % 0x100_0000
  {
    var m := n / 0x100;
    var h := m / 0x100;
    assert h == n / 0x1_0000 && n == 0x1_0000 * h + 0x100 * (m % 0x100) + n % 0x100;
    assert h == 0x100 * (h / 0x100) + h % 0x100;
    ModUnique(n, h / 0x100, 0x1_0000 * (h % 0x100) + 0x100 * (m % 0x100) + n % 0x100, 0x100_0000);
  }

  lemma Bytes32(n: nat)
    requires n < U32_LIMIT
    ensures Byte3(n) * 0x100_0000 + Byte2(n) * 0x1_0000 + Byte1(n) * 0x100 + Byte0(n) == n
  {
    Bytes24(n);
    assert n / 0x100_0000 < 0x100;
  }

  /** Bitwise AND of two unsigned numbers. */
  function And(x: nat, y: nat): (r: nat)
    ensures r <= x && r <= y
  {
    if x == 0 || y == 0 then 0
    else (if x % 2 == 1 && y % 2 == 1 then 1 else 0) + 2 * And(x / 2, y / 2)
  }

  function And8(x: byte, y: byte): byte { And(x, y) }

  /** ANDing with all ones changes nothing: programming an erased byte stores the data. */
  lemma AndOnes(y: byte)
    ensures And8(0xFF, y) == y
  {
    AndMask(8, y);
    assert Ones(8) == 0xFF;
  }

  lemma {:induction false} AndSame(x: nat)
    ensures And(x, x) == x
  {
    if x > 0 {
      AndSame(x / 2);
    }
  }

  /** The number with the low `k` bits set. */
  function Ones(k: nat): nat { if k == 0 then 0 else 1 + 2 * Ones(k - 1) }

  lemma {:induction false} AndMask(k: nat, y: nat)
    requires y <= Ones(k)
    ensures And(Ones(k), y) == y
  {
    if k > 0 && y > 0 {
      assert Ones(k) % 2 == 1 && Ones(k) / 2 == Ones(k - 1);
      AndMask(k - 1, y / 2);
    }
  }

  /** Bitwise OR of two unsigned numbers. */
  function Or(x: nat, y: nat): (r: nat)
    decreases x + y
  {
    if x == 0 && y == 0 then 0
    else (if x % 2 == 1 || y % 2 == 1 then 1 else 0) + 2 * Or(x / 2, y / 2)
  }

  /** x << k */
  function Shift(x: nat, k: nat): nat { if k == 0 then x else 2 * Shift(x, k - 1) }

  /** 1 << k */
  function Pow2(k: nat): nat { Shift(1, k) }

  lemma Powers()
    ensures Pow2(2) == 0x4 && Pow2(7) == 0x80 && Pow2(8) == 0x100
    ensures Pow2(11) == 0x800 && Pow2(15) == 0x8000 && Pow2(16) == 0x1_0000
  {
    assert Pow2(8) == 0x100;
    assert Pow2(10) == 0x400;
    assert Pow2(12) == 0x1000;
    assert Pow2(14) == 0x4000;
  }

  /** A mask shifted right by one. */
  lemma MaskHalves(k: nat)
    ensures Pow2(k + 1) / 2 == Pow2(k)
  {
  }

  /** Where gathering starts and ends. */
  lemma GatherEnds(out: seq<bool>)
    ensures Shift(FromBits(out[..0]), |out|) == 0
    ensures Shift(FromBits(out[..|out|]), 0) == FromBits(out)
  {
    ShiftZero(|out|);
    assert out[..0] == [] && out[..|out|] == out;
  }

  lemma {:induction false} ShiftZero(k: nat)
    ensures Shift(0, k) == 0
  {
    if k > 0 {
      ShiftZero(k - 1);
    }
  }

  lemma Shift4(x: nat)
    ensures Shift(x, 4) == 0x10 * x
  {
    assert Shift(x, 1) == 2 * x;
    assert Shift(x, 3) == 8 * x;
  }

  lemma {:induction false} ShiftPlus(x: nat, j: nat, k: nat)
    ensures Shift(x, j + k) == Shift(Shift(x, j), k)
  {
    if k > 0 {
      ShiftPlus(x, j, k - 1);
    }
  }

  lemma Shift16(x: nat)
    ensures Shift(x, 16) == 0x1_0000 * x
  {
    Shift4(x);
    ShiftPlus(x, 4, 4);
    Shift4(Shift(x, 4));
    ShiftPlus(x, 8, 4);
    Shift4(Shift(x, 8));
    ShiftPlus(x, 12, 4);
    Shift4(Shift(x, 12));
  }

  lemma {:induction false} ShiftDoubled(x: nat, k: nat)
    ensures Shift(2 * x, k) == 2 * Shift(x, k)
  {
    if k > 0 {
      ShiftDoubled(x, k - 1);
    }
  }

  function Bit(b: bool): nat { if b then 1 else 0 }

  /** The low `k` bits of a number, most significant first. */
  function BitsOf(n: nat, k: nat): (s: seq<bool>)
    ensures |s| == k
  {
    if k == 0 then [] else BitsOf(n / 2, k - 1) + [n % 2 == 1]
  }

  /** A byte's bits by their weights. */
  lemma ByteBits(n: nat)
    ensures BitsOf(n, 8) == [n / 128 % 2 == 1, n / 64 % 2 == 1, n / 32 % 2 == 1, n / 16 % 2 == 1,
                             n / 8 % 2 == 1, n / 4 % 2 == 1, n / 2 % 2 == 1, n % 2 == 1]
  {
    hide BitsOf;
    LastFourBits(n, 4);
    LastFourBits(n / 16, 0);
    NoBits(n / 256);
    assert n / 16 / 8 == n / 128 && n / 16 / 4 == n / 64 && n / 16 / 2 == n / 32 && n / 16 / 16 == n / 256;
  }

  lemma LastFourBits(n: nat, k: nat)
    ensures BitsOf(n, k + 4) ==
            BitsOf(n / 16, k) + [n / 8 % 2 == 1, n / 4 % 2 == 1, n / 2 % 2 == 1, n % 2 == 1]
  {
    hide BitsOf;
    LastTwoBits(n, k + 2);
    LastTwoBits(n / 4, k);
    assert n / 4 / 2 == n / 8 && n / 4 / 4 == n / 16;
  }

  lemma LastTwoBits(n: nat, k: nat)
    ensures BitsOf(n, k + 2) == BitsOf(n / 4, k) + [n / 2 % 2 == 1, n % 2 == 1]
  {
    assert BitsOf(n / 2, k + 1) == BitsOf(n / 2 / 2, k) + [n / 2 % 2 == 1];
  }

  lemma NoBits(n: nat)
    ensures BitsOf(n, 0) == []
  {
  }

  /** AND works bit by bit. */
  lemma {:induction false} AndBits(x: nat, y: nat, k: nat, i: nat)
    requires i < k
    ensures BitsOf(And(x, y), k)[i] == (BitsOf(x, k)[i] && BitsOf(y, k)[i])
  {
    if x == 0 || y == 0 {
      ZeroBits(k, i);
    } else {
      var r := And(x, y);
      assert r / 2 == And(x / 2, y / 2) && r % 2 == if x % 2 == 1 && y % 2 == 1 then 1 else 0;
      if i < k - 1 {
        AndBits(x / 2, y / 2, k - 1, i);
      }
    }
  }

  function FromBits(s: seq<bool>): (n: nat)
    ensures n < Pow2(|s|)
  {
    if s == [] then 0 else 2 * FromBits(s[..|s| - 1]) + Bit(s[|s| - 1])
  }

  lemma {:induction false} BitsRoundTrip(n: nat, k: nat)
    requires n < Pow2(k)
    ensures FromBits(BitsOf(n, k)) == n
  {
    if k > 0 {
      BitsRoundTrip(n / 2, k - 1);
      assert BitsOf(n, k)[..k - 1] == BitsOf(n / 2, k - 1);
    }
  }

  /** A test of one bit through a mask reads the bit in its place. */
  lemma {:induction false} MaskTest(n: nat, k: nat, i: nat)
    requires i < k
    ensures And(Pow2(i), n) == 0 <==> !BitsOf(n, k)[k - 1 - i]
  {
    if n == 0 {
      ZeroBits(k, k - 1 - i);
    } else if i > 0 {
      MaskTest(n / 2, k - 1, i - 1);
      assert Pow2(i) % 2 == 0 && Pow2(i) / 2 == Pow2(i - 1);
    }
  }

  lemma {:induction false} ZeroBits(k: nat, j: nat)
    requires j < k
    ensures !BitsOf(0, k)[j]
  {
    if j < k - 1 {
      ZeroBits(k - 1, j);
    }
  }

  /** ORing the next lower bit into a number whose lower bits are clear. */
  lemma {:induction false} OrNextBit(x: nat, k: nat)
    ensures Or(Shift(2 * x, k), Shift(1, k)) == Shift(2 * x + 1, k)
  {
    if k > 0 {
      OrNextBit(x, k - 1);
      OrDoubled(Shift(2 * x, k - 1), Shift(1, k - 1));
    } else {
      assert 2 * x / 2 == x && 2 * x % 2 == 0;
      OrZero(x);
    }
  }

  lemma OrDoubled(a: nat, b: nat)
    ensures Or(2 * a, 2 * b) == 2 * Or(a, b)
  {
    assert 2 * a % 2 == 0 && 2 * a / 2 == a && 2 * b % 2 == 0 && 2 * b / 2 == b;
  }

  lemma {:induction false} OrZero(x: nat)
    ensures Or(x, 0) == x
  {
    if x > 0 {
      OrZero(x / 2);
    }
  }

  /** Gathering bits under a falling mask: the next output bit ORed in below the ones before. */
  lemma GatherStep(out: seq<bool>, i: nat)
    requires i < |out|
    ensures var data, mask := Shift(FromBits(out[..i]), |out| - i), Pow2(|out| - 1 - i);
      Shift(FromBits(out[..i + 1]), |out| - 1 - i) == if out[i] then Or(data, mask) else data
  {
    var before, k := FromBits(out[..i]), |out| - 1 - i;
    assert out[..i + 1][..i] == out[..i];
    assert FromBits(out[..i + 1]) == 2 * before + Bit(out[i]);
    ShiftDoubled(before, k);
    OrNextBit(before, k);
  }

  // Register words changed bit by bit

  function Set(reg: bv16, bit: bv16): bv16 { reg | bit }

  function Clear(reg: bv16, bit: bv16): bv16 { reg & !bit }

  predicate Has(reg: bv16, bit: bv16) { reg & bit != 0 }

  /** Setting or clearing some bits leaves other bits alone. */
  lemma SetKeeps(reg: bv16, bit: bv16, other: bv16)
    requires bit & other == 0
    ensures Set(reg, bit) & other == reg & other
  {
  }

  lemma ClearKeeps(reg: bv16, bit: bv16, other: bv16)
    requires bit & other == 0
    ensures Clear(reg, bit) & other == reg & other
  {
  }

  lemma KeepsBit(reg: bv16, bit: bv16, other: bv16)
    requires bit & other == 0
    ensures Has(Set(reg, bit), other) == Has(reg, other) == Has(Clear(reg, bit), other)
  {
    hide Set, Clear;
    SetKeeps(reg, bit, other);
    ClearKeeps(reg, bit, other);
  }

  lemma SetOwn(reg: bv16, bit: bv16)
    requires bit != 0
    ensures Has(Set(reg, bit), bit)
  {
  }

  lemma ClearOwn(reg: bv16, bit: bv16)
    ensures !Has(Clear(reg, bit), bit)
  {
  }

  lemma OwnBit(reg: bv16, bit: bv16)
    requires bit != 0
    ensures Has(Set(reg, bit), bit) && !Has(Clear(reg, bit), bit)
  {
    SetOwn(reg, bit);
    ClearOwn(reg, bit);
  }

  lemma ModUnique(x: int, q: int, r: int, d: int)
    requires d > 0 && 0 <= r < d && x == q * d + r
    ensures x % d == r && x / d == q
  {
    var k, r' := q - x / d, x % d;
    assert k * d == r' - r;
    assert k >= 1 ==> k * d >= d;
    assert k <= -1 ==> k * d <= -d;
  }
}
