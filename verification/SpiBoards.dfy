/** spi_boards.c: 32-bit register words over an SPI port that may only do bytes. The port is a wire
    model: in 8-bit mode bytes go out in memory order, in 32-bit mode each word of this
    little-endian host goes out most significant byte first. */
module SpiBoards {
  import opened Bytes

  const SPILBP_ADDR_AUTO_INC := 0x0800
  const SPILBP_CMD_READ := 0xA000
  const SPILBP_CMD_WRITE := 0xB000

  /** A command word: the address above the operation, the increment flag and the count. */
  function CommandWord(cmd: nat, addr: nat, nelem: nat): nat {
    Or(Or(Or(Shift(addr, 16), cmd), SPILBP_ADDR_AUTO_INC), Shift(nelem, 4))
  }

  /** Bitwise exclusive or. */
  function Xor(x: nat, y: nat): nat
    decreases x + y
  {
    if x == 0 && y == 0 then 0
    else (if x % 2 != y % 2 then 1 else 0) + 2 * Xor(x / 2, y / 2)
  }

  lemma {:induction false} XorBound(x: nat, y: nat, k: nat)
    requires x < Pow2(k) && y < Pow2(k)
    ensures Xor(x, y) < Pow2(k)
  {
    if k > 0 {
      XorBound(x / 2, y / 2, k - 1);
    }
  }

  /** The three assignments of an exclusive-or swap. */
  lemma {:induction false} XorSwap(a: nat, b: nat)
    ensures Xor(b, Xor(a, b)) == a && Xor(Xor(a, b), a) == b
    decreases a + b
  {
    if a != 0 || b != 0 {
      XorSwap(a / 2, b / 2);
      XorStep(a, b);
    }
  }

  lemma XorStep(a: nat, b: nat)
    ensures Xor(a, b) % 2 == (if a % 2 != b % 2 then 1 else 0) && Xor(a, b) / 2 == Xor(a / 2, b / 2)
  {
  }

  function Xor8(x: byte, y: byte): byte {
    assert Xor(x, y) < 0x100 by { assert Pow2(8) == 0x100; XorBound(x, y, 8); }
    Xor(x, y)
  }

  /** The first `n` four-byte words of a buffer, each with its bytes reversed. */
  function SwapWords(b: seq<byte>, n: nat): (s: seq<byte>)
    requires 4 * n <= |b|
    ensures |s| == |b|
  {
    seq(|b|, i requires 0 <= i < |b| => if i < 4 * n then b[i / 4 * 4 + 3 - i % 4] else b[i])
  }

  /** Byte j of word w goes to the mirrored place of its word, and nothing else moves. */
  lemma SwapPlaces(b: seq<byte>, n: nat, w: nat, j: nat)
    requires 4 * n <= |b| && j < 4
    ensures w < n ==> SwapWords(b, n)[4 * w + j] == b[4 * w + 3 - j]
    ensures n <= w && 4 * w + j < |b| ==> SwapWords(b, n)[4 * w + j] == b[4 * w + j]
  {
    ModUnique(4 * w + j, w, j, 4);
  }

  /** Reversing the words is its own inverse. */
  lemma SwapTwice(b: seq<byte>, n: nat)
    requires 4 * n <= |b|
    ensures SwapWords(SwapWords(b, n), n) == b
  {
  }

  /** reorderBuffer: in place, by exclusive-or swaps. */
  method ReorderBuffer(buf: array<byte>, numInts: nat)
    requires 4 * numInts <= buf.Length
    modifies buf
    ensures buf[..] == SwapWords(old(buf[..]), numInts)
  {
    ghost var was := buf[..];
    var p := 0;
    for lcv := 0 to numInts
      invariant p == 4 * lcv
      invariant buf[..] == SwapWords(was, lcv)
    {
      SwapBytes(buf, p, p + 3);
      SwapBytes(buf, p + 1, p + 2);
      NextWord(was, lcv);
      p := p + 4;
    }
  }

  method SwapBytes(buf: array<byte>, i: nat, j: nat)
    requires i < j < buf.Length
    modifies buf
    ensures buf[..] == old(buf[..])[i := old(buf[j])][j := old(buf[i])]
  {
    XorSwap(buf[i], buf[j]);
    buf[i] := Xor8(buf[i], buf[j]);
    buf[j] := Xor8(buf[j], buf[i]);
    buf[i] := Xor8(buf[i], buf[j]);
  }

  lemma NextWord(b: seq<byte>, n: nat)
    requires 4 * n + 4 <= |b|
    ensures var p, s := 4 * n, SwapWords(b, n);
      SwapWords(b, n + 1) == s[p := s[p + 3]][p + 3 := s[p]][p + 1 := s[p + 2]][p + 2 := s[p + 1]]
  {
  }

  // The wire

  /** What leaves memory in a transfer of n words, and what comes back into it. */
  function Wire(can32: bool, mem: seq<byte>, n: nat): (w: seq<byte>)
    requires |mem| == 4 * n
    ensures |w| == |mem|
  {
    if can32 then SwapWords(mem, n) else mem
  }

  /** The board answers every byte it is sent with one byte. */
  type Board = t: seq<byte> -> seq<byte> | forall w :: |t(w)| == |w| witness w => w

  function Be32(n: nat): seq<byte> { [Byte3(n), Byte2(n), Byte1(n), Byte0(n)] }

  function Zeros(n: nat): seq<byte> { seq(n, _ => 0) }

  /** A read: the command and as many zero words on the wire, the answer's words into memory. */
  function ReadAnswer(board: Board, addr: nat, size: nat): (data: seq<byte>)
    requires size % 4 == 0
    ensures |data| == size
  {
    SwapWords(board(Be32(CommandWord(SPILBP_CMD_READ, addr, size / 4)) + Zeros(size))[4..], size / 4)
  }

  /** What a read brings into memory: the board is sent the address, the read code with increment, the
      count and zeros, and its answer behind the first word arrives with each word turned round. */
  lemma ReadRequest(board: Board, addr: nat, size: nat)
    requires addr < 0x1_0000 && size % 4 == 0 && size / 4 <= 127
    ensures var n := size / 4;
      var sent := [addr / 0x100, addr % 0x100, 0xA8 + n / 16, n % 16 * 16];
      ReadAnswer(board, addr, size) == SwapWords(board(sent + Zeros(size))[4..], n)
  {
    hide SwapWords, CommandWord, Be32;
    CommandBytes(SPILBP_CMD_READ, addr, size / 4);
  }

  /** The bytes of a command word in wire order. */
  lemma CommandBytes(cmd: nat, addr: nat, nelem: nat)
    requires cmd == 0xA000 || cmd == 0xB000
    requires addr < 0x1_0000 && nelem <= 127
    ensures Be32(CommandWord(cmd, addr, nelem)) ==
            [addr / 0x100, addr % 0x100, cmd / 0x100 + 0x08 + nelem / 16, nelem % 16 * 16]
  {
    hide CommandWord;
    CommandSum(cmd, addr, nelem);
    var n := CommandWord(cmd, addr, nelem);
    var low := cmd + 0x800 + nelem * 0x10;
    assert n == addr * 0x1_0000 + low;
    ModUnique(n, addr, low, 0x1_0000);
    ModUnique(n, addr * 0x100 + low / 0x100, low % 0x100, 0x100);
    ModUnique(n / 0x100, addr, low / 0x100, 0x100);
    ModUnique(n, addr / 0x100, addr % 0x100 * 0x1_0000 + low, 0x100_0000);
  }

  /** spi_read: whichever width the port can do, the same bits cross the wire and the same words
      arrive. `sent` is what the ioctl returns, negative when the transfer failed. */
  method SpiRead(can32: bool, board: Board, sent: int, addr: nat, buffer: array<byte>, size: nat) returns (r: int)
    requires addr < 0x1_0000 && size <= buffer.Length
    modifies buffer
    ensures r == if size % 4 != 0 then -1 else if sent < 0 then sent else 0
    ensures buffer[..] == if r == 0 then ReadAnswer(board, addr, size) + old(buffer[size..]) else old(buffer[..])
  {
    if size % 4 != 0 {
      return -1;
    }
    if sent < 0 {
      return sent;
    }
    hide SwapWords, CommandWord, Be32, Zeros;
    assert size == 4 * (size / 4);
    var trxbuf := ReadTransfer(can32, board, CommandWord(SPILBP_CMD_READ, addr, size / 4), size / 4);
    forall i | 0 <= i < size {
      buffer[i] := trxbuf[4 + i];
    }
    assert buffer[..size] == trxbuf[..][4..];
    return 0;
  }

  /** The transfer buffer of spi_read, from its request to the answer put in order. */
  method ReadTransfer(can32: bool, board: Board, cmd: nat, n: nat) returns (trxbuf: array<byte>)
    ensures fresh(trxbuf) && trxbuf.Length == 4 * (1 + n)
    ensures trxbuf[..][4..] == SwapWords(board(Be32(cmd) + Zeros(4 * n))[4..], n)
  {
    hide SwapWords, Wire, Be32, Zeros;
    trxbuf := OrderedRequest(can32, cmd, n);
    Transfer(can32, board, trxbuf, 1 + n);
    AnswerWords(board(Be32(cmd) + Zeros(4 * n)), n);
    if !can32 {
      ReorderBuffer(trxbuf, 1 + n);
    }
  }

  /** The request in the order the port needs it. */
  method OrderedRequest(can32: bool, cmd: nat, n: nat) returns (trxbuf: array<byte>)
    ensures fresh(trxbuf) && trxbuf.Length == 4 * (1 + n)
    ensures Wire(can32, trxbuf[..], 1 + n) == Be32(cmd) + Zeros(4 * n)
  {
    hide SwapWords, Wire, Be32, Le32, Zeros;
    trxbuf := RequestBuffer(cmd, n);
    RequestWire(cmd, n);
    if !can32 {
      ReorderBuffer(trxbuf, 1);
    }
  }

  /** The ioctl: the buffer goes out, and the answer comes back into it. */
  method Transfer(can32: bool, board: Board, trxbuf: array<byte>, n: nat)
    requires trxbuf.Length == 4 * n
    modifies trxbuf
    ensures trxbuf[..] == Wire(can32, board(Wire(can32, old(trxbuf[..]), n)), n)
  {
    hide Wire;
    var answer := Wire(can32, board(Wire(can32, trxbuf[..], n)), n);
    forall i | 0 <= i < trxbuf.Length {
      trxbuf[i] := answer[i];
    }
    assert trxbuf[..] == answer;
  }

  /** The command word and as many zero words as are to be read. */
  method RequestBuffer(cmd: nat, n: nat) returns (trxbuf: array<byte>)
    ensures fresh(trxbuf) && trxbuf.Length == 4 * (1 + n) && trxbuf[..] == Le32(cmd) + Zeros(4 * n)
  {
    hide Byte0, Byte1, Byte2, Byte3;
    trxbuf := new byte[4 * (1 + n)](_ => 0);
    trxbuf[0], trxbuf[1], trxbuf[2], trxbuf[3] := Byte0(cmd), Byte1(cmd), Byte2(cmd), Byte3(cmd);
  }

  /** Both widths put the command's big-endian bytes and the zeros on the wire. */
  lemma RequestWire(cmd: nat, n: nat)
    ensures Wire(true, Le32(cmd) + Zeros(4 * n), 1 + n) == Be32(cmd) + Zeros(4 * n)
    ensures Wire(false, SwapWords(Le32(cmd) + Zeros(4 * n), 1), 1 + n) == Be32(cmd) + Zeros(4 * n)
  {
  }

  /** Both widths bring the same words of an answer into memory behind the first. */
  lemma AnswerWords(answer: seq<byte>, n: nat)
    requires |answer| == 4 * n + 4
    ensures Wire(true, answer, 1 + n) == SwapWords(answer, 1 + n) && Wire(false, answer, 1 + n) == answer
    ensures SwapWords(answer, 1 + n)[4..] == SwapWords(answer[4..], n)
  {
    forall i | 0 <= i < 4 * n
      ensures SwapWords(answer, 1 + n)[4..][i] == SwapWords(answer[4..], n)[i]
    {
      NextPlace(i);
      var j := i / 4 * 4 + 3 - i % 4;
      assert SwapWords(answer, 1 + n)[4 + i] == answer[4 + j] == answer[4..][j];
    }
  }

  lemma NextPlace(i: nat)
    ensures (4 + i) / 4 == 1 + i / 4 && (4 + i) % 4 == i % 4
  {
  }

  /** spi_write: the bytes put on the wire are the command and the data words, most significant
      byte first, whichever width the port can do. */
  method SpiWrite(can32: bool, sent: int, addr: nat, buffer: seq<byte>, size: nat) returns (r: int, wire: seq<byte>)
    requires addr < 0x1_0000 && size <= |buffer|
    ensures size % 4 != 0 ==> r == -1 && wire == []
    ensures size % 4 == 0 ==>
      && r == (if sent < 0 then sent else 0)
      && wire == Be32(CommandWord(SPILBP_CMD_WRITE, addr, size / 4)) + SwapWords(buffer[..size], size / 4)
  {
    if size % 4 != 0 {
      return -1, [];
    }
    var numInts := 1 + size / 4;
    var cmd := CommandWord(SPILBP_CMD_WRITE, addr, size / 4);
    var txbuf := new byte[4 * numInts](i requires 0 <= i < 4 + size => (Le32(cmd) + buffer[..size])[i]);
    assert txbuf[..] == Le32(cmd) + buffer[..size];
    if !can32 {
      ReorderBuffer(txbuf, numInts);
    }
    DataWire(cmd, buffer[..size]);
    wire := Wire(can32, txbuf[..], numInts);
    if sent <= 0 {
      return sent, wire;
    }
    return 0, wire;
  }

  lemma DataWire(cmd: nat, data: seq<byte>)
    requires |data| % 4 == 0
    ensures SwapWords(Le32(cmd) + data, 1 + |data| / 4) == Be32(cmd) + SwapWords(data, |data| / 4)
  {
  }

  // The command word

  function AddressOf(word: nat): nat { word / 0x1_0000 }

  function CountOf(word: nat): nat { word / 0x10 % 0x80 }

  predicate Increments(word: nat) { word / 0x800 % 2 == 1 }

  function OperationOf(word: nat): nat { word / 0x1000 % 0x10 * 0x1000 }

  lemma {:induction false} OrBelow(x: nat, k: nat, y: nat)
    requires y < Pow2(k)
    ensures Or(Shift(x, k), y) == Shift(x, k) + y
  {
    if k == 0 {
      OrZero(x);
    } else {
      OrBelow(x, k - 1, y / 2);
      assert Shift(x, k) == 2 * Shift(x, k - 1);
      if Shift(x, k) == 0 && y == 0 {
      } else {
        assert Shift(x, k) % 2 == 0 && Shift(x, k) / 2 == Shift(x, k - 1);
      }
    }
  }

  /** A board decodes the command word back to its address, operation and flag, and to its count
      exactly when the count is at most 127. */
  lemma CommandDecodes(cmd: nat, addr: nat, nelem: nat)
    requires (cmd == SPILBP_CMD_READ || cmd == SPILBP_CMD_WRITE) && addr < 0x1_0000
    ensures nelem <= 127 ==> var w := CommandWord(cmd, addr, nelem);
      AddressOf(w) == addr && OperationOf(w) == cmd && Increments(w) && w < U32_LIMIT
    ensures CountOf(CommandWord(cmd, addr, nelem)) == nelem <==> nelem <= 127
  {
    if nelem <= 127 {
      CommandSum(cmd, addr, nelem);
      FieldsOfSum(cmd, addr, nelem);
    }
  }

  lemma FieldsOfSum(cmd: nat, addr: nat, nelem: nat)
    requires (cmd == SPILBP_CMD_READ || cmd == SPILBP_CMD_WRITE) && addr < 0x1_0000 && nelem <= 127
    ensures var w := addr * 0x1_0000 + cmd + SPILBP_ADDR_AUTO_INC + nelem * 0x10;
      AddressOf(w) == addr && OperationOf(w) == cmd && Increments(w) && CountOf(w) == nelem && w < U32_LIMIT
  {
    var base := addr * 0x10 + cmd / 0x1000;
    LowFields(base, nelem);
    var w := base * 0x1000 + 0x800 + nelem * 0x10;
    ModUnique(base, addr, cmd / 0x1000, 0x10);
    ModUnique(w, addr, cmd + 0x800 + nelem * 0x10, 0x1_0000);
  }

  lemma LowFields(base: nat, nelem: nat)
    requires nelem <= 127
    ensures var w := base * 0x1000 + 0x800 + nelem * 0x10;
      w / 0x1000 == base && w / 0x800 % 2 == 1 && w / 0x10 % 0x80 == nelem
  {
    var w := base * 0x1000 + 0x800 + nelem * 0x10;
    ModUnique(w, base, 0x800 + nelem * 0x10, 0x1000);
    ModUnique(w, 2 * base + 1, nelem * 0x10, 0x800);
    var n := 0x100 * base + 0x80 + nelem;
    ModUnique(w, n, 0, 0x10);
    ModUnique(n, 2 * base + 1, nelem, 0x80);
  }

  lemma CommandSum(cmd: nat, addr: nat, nelem: nat)
    requires (cmd == SPILBP_CMD_READ || cmd == SPILBP_CMD_WRITE) && addr < 0x1_0000 && nelem <= 127
    ensures CommandWord(cmd, addr, nelem) == addr * 0x1_0000 + cmd + SPILBP_ADDR_AUTO_INC + nelem * 0x10
  {
    hide Or, Shift;
    var x := addr * 0x10 + cmd / 0x1000;
    OrCommand(cmd, addr);
    OrIncrement(x);
    OrCount(x, nelem);
    assert 0x1000 * x == addr * 0x1_0000 + cmd;
  }

  lemma OrCommand(cmd: nat, addr: nat)
    requires cmd < 0x1_0000
    ensures Or(Shift(addr, 16), cmd) == addr * 0x1_0000 + cmd
  {
    hide Or, Shift;
    Powers();
    Shift16(addr);
    OrBelow(addr, 16, cmd);
  }

  lemma OrIncrement(x: nat)
    ensures Or(0x1000 * x, SPILBP_ADDR_AUTO_INC) == 0x1000 * x + SPILBP_ADDR_AUTO_INC
  {
    hide Or, Shift;
    Powers();
    Shift11(2 * x);
    Shift11(2 * x + 1);
    OrNextBit(x, 11);
  }

  lemma OrCount(x: nat, nelem: nat)
    requires nelem <= 127
    ensures Or(0x1000 * x + SPILBP_ADDR_AUTO_INC, Shift(nelem, 4)) ==
            0x1000 * x + SPILBP_ADDR_AUTO_INC + nelem * 0x10
  {
    hide Or, Shift;
    Powers();
    Shift4(nelem);
    Shift11(2 * x + 1);
    OrBelow(2 * x + 1, 11, nelem * 0x10);
  }

  lemma Shift11(x: nat)
    ensures Shift(x, 11) == 0x800 * x
  {
    Shift4(x);
    ShiftPlus(x, 4, 4);
    Shift4(Shift(x, 4));
    assert Shift(x, 9) == 2 * Shift(x, 8) && Shift(x, 10) == 2 * Shift(x, 9);
  }
}
