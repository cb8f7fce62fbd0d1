/** bitfile.c: print_bitfile_header, which fixes where the configuration data of a bit file starts.
    The Xilinx branch is written out; what the line-oriented Efinix branch makes of a file is a
    parameter. */
module Bitfile {
  import opened Bytes
  import opened Stdio

  const HEADER_BUFFER := 256
  const PART_BUFFER := 32
  const VERSION_WORD: seq<byte> := [0x56, 0x65, 0x72, 0x73, 0x69, 0x6F, 0x6E]

  /** What the stack holds where the parser's buffer and the caller's part name are: neither is
      initialised. */
  datatype Stack = Stack(buff: seq<byte>, part: seq<byte>)

  predicate StackFrame(s: Stack) { |s.buff| == HEADER_BUFFER }

  /** `Overrun` marks a header that C gives no meaning to: a field longer than the buffer it is read
      into, or a part name that does not end within its own. */
  datatype Header = Rejected | Overrun | Accepted(length: nat, pos: nat, eof: bool, part: seq<byte>)

  /** Where an accepted header may leave a stream on `d`. */
  ghost predicate LeavesStream(h: Header, d: seq<byte>) {
    h.Accepted? ==> h.pos <= |d| && (h.eof ==> h.pos == |d|)
  }

  /** The Efinix branch, as a function of the file. */
  type TextHeader = t: seq<byte> -> Header | forall d :: LeavesStream(t(d), d) witness d => Rejected

  /** Stream position, end-of-file flag and buffer between two reads. */
  datatype Scan = Lost | Scan(pos: nat, eof: bool, buff: seq<byte>)

  predicate InFile(s: Scan, d: seq<byte>) {
    s.Scan? ==> |s.buff| == HEADER_BUFFER && s.pos <= |d| && (s.eof ==> s.pos == |d|)
  }

  /** fread of n bytes into the header buffer. */
  function ReadInto(d: seq<byte>, s: Scan, n: nat): (r: Scan)
    requires InFile(s, d)
    ensures InFile(r, d)
  {
    if s.Lost? then Lost
    else
      var k := Min(n, |d| - s.pos);
      if k > HEADER_BUFFER then Lost else Scan(s.pos + k, s.eof || k < n, d[s.pos..s.pos + k] + s.buff[k..])
  }

  /** A length-prefixed field: `lead` bytes whose last two are the length, then the field. */
  function ReadField(d: seq<byte>, s: Scan, lead: nat): (r: Scan)
    requires InFile(s, d) && 2 <= lead <= 3
    ensures InFile(r, d)
  {
    var t := ReadInto(d, s, lead);
    if t.Lost? then Lost
    else ReadInto(d, t, (t.buff[lead - 2] as int) * 256 + t.buff[lead - 1])
  }

  datatype CString = Unterminated | Text(chars: seq<byte>)

  /** The C string at the start of a buffer. */
  function StringAt(buff: seq<byte>): CString {
    if buff == [] then Unterminated
    else if buff[0] == 0 then Text([])
    else match StringAt(buff[1..]) case Unterminated => Unterminated case Text(s) => Text([buff[0]] + s)
  }

  /** Design, part, date and time fields and the five-byte configuration length. */
  function XilinxFields(d: seq<byte>, s: Scan): (h: Header)
    requires InFile(s, d)
    ensures LeavesStream(h, d)
  {
    var part := ReadField(d, ReadField(d, s, 2), 3);
    var name := if part.Scan? then StringAt(part.buff) else Unterminated;
    var end := ReadInto(d, ReadField(d, ReadField(d, part, 3), 3), 5);
    if end.Lost? || name.Unterminated? || |name.chars| >= PART_BUFFER then Overrun
    else Accepted(end.pos, end.pos, end.eof, name.chars)
  }

  function ParseHeader(d: seq<byte>, stack: Stack, text: TextHeader): (h: Header)
    requires StackFrame(stack)
    ensures LeavesStream(h, d)
  {
    var s := ReadInto(d, Scan(0, false, stack.buff), 14);
    if s.pos != 14 then Rejected
    else if s.buff[0] == 0 && s.buff[1] == 9 then
      if s.buff[11] == 0 && s.buff[12] == 1 && s.buff[13] == 0x61 then XilinxFields(d, s)
      else Accepted(14, 14, false, stack.part)
    else if d[..7] == VERSION_WORD then text(d)
    else Rejected
  }

  /** print_bitfile_header: the header length or -1, the part name, and the stream moved on. */
  method PrintBitfileHeader(fp: Stream, stack: Stack, text: TextHeader) returns (ret: int, part: seq<byte>)
    requires fp.Valid() && fp.pos == 0 && !fp.eof && StackFrame(stack)
    requires ParseHeader(fp.data, stack, text) != Overrun
    modifies fp
    ensures fp.Valid()
    ensures match ParseHeader(fp.data, stack, text)
      case Accepted(n, pos, eof, p) => ret == n && part == p && fp.pos == pos && fp.eof == eof
      case _ => ret == -1
  {
    var buff := new byte[HEADER_BUFFER](i requires 0 <= i < HEADER_BUFFER => stack.buff[i]);
    assert buff[..] == stack.buff;
    part := stack.part;
    var bytesread := ReadBuffer(fp, buff, 14);
    ret := bytesread;
    if bytesread != 14 {
      return -1, part;
    }
    if buff[0] == 0 && buff[1] == 9 {
      if buff[11] == 0 && buff[12] == 1 && buff[13] == 0x61 {
        ret, part := ReadXilinxFields(fp, buff, ret);
      }
      return;
    }
    // rewind and look at the first line
    if fp.data[..7] == VERSION_WORD {
      match text(fp.data) {
        case Accepted(n, pos, eof, p) =>
          fp.Seek(pos, eof);
          return n, p;
        case _ =>
      }
    }
    return -1, part;
  }

  method ReadXilinxFields(fp: Stream, buff: array<byte>, read: nat) returns (ret: nat, part: seq<byte>)
    requires fp.Valid() && buff.Length == HEADER_BUFFER && read == fp.pos
    requires XilinxFields(fp.data, ScanOf(fp, buff)) != Overrun
    modifies fp, buff
    ensures fp.Valid()
    ensures XilinxFields(fp.data, old(ScanOf(fp, buff))) == Accepted(ret, fp.pos, fp.eof, part)
  {
    hide StringAt;
    ret := read;
    var n := ReadFieldInto(fp, buff, 2);
    ret := ret + n;
    n := ReadFieldInto(fp, buff, 3);
    ret := ret + n;
    part := CopyString(buff);
    n := ReadFieldInto(fp, buff, 3);
    ret := ret + n;
    n := ReadFieldInto(fp, buff, 3);
    ret := ret + n;
    n := ReadBuffer(fp, buff, 5);
    ret := ret + n;
  }

  ghost function ScanOf(fp: Stream, buff: array<byte>): Scan
    requires fp.Valid()
    reads fp, buff
  {
    Scan(fp.pos, fp.eof, buff[..])
  }

  method ReadBuffer(fp: Stream, buff: array<byte>, n: nat) returns (k: nat)
    requires fp.Valid() && buff.Length == HEADER_BUFFER
    requires ReadInto(fp.data, ScanOf(fp, buff), n).Scan?
    modifies fp, buff
    ensures fp.Valid() && fp.pos == old(fp.pos) + k
    ensures ScanOf(fp, buff) == ReadInto(fp.data, old(ScanOf(fp, buff)), n)
  {
    k := fp.Read(buff, n);
  }

  method ReadFieldInto(fp: Stream, buff: array<byte>, lead: nat) returns (n: nat)
    requires fp.Valid() && buff.Length == HEADER_BUFFER && 2 <= lead <= 3
    requires ReadField(fp.data, ScanOf(fp, buff), lead).Scan?
    modifies fp, buff
    ensures fp.Valid() && fp.pos == old(fp.pos) + n
    ensures ScanOf(fp, buff) == ReadField(fp.data, old(ScanOf(fp, buff)), lead)
  {
    n := ReadBuffer(fp, buff, lead);
    var sleng := (buff[lead - 2] as int) * 256 + buff[lead - 1];
    var k := ReadBuffer(fp, buff, sleng);
    n := n + k;
  }

  /** strcpy out of the header buffer. */
  method CopyString(buff: array<byte>) returns (s: seq<byte>)
    requires StringAt(buff[..]).Text?
    ensures StringAt(buff[..]) == Text(s)
  {
    s := [];
    var i := 0;
    assert buff[0..] == buff[..];
    while buff[i] != 0
      invariant 0 <= i < buff.Length
      invariant StringAt(buff[i..]).Text?
      invariant StringAt(buff[..]) == Text(s + StringAt(buff[i..]).chars)
      decreases buff.Length - i
    {
      assert buff[i..][1..] == buff[i + 1..];
      s := s + [buff[i]];
      i := i + 1;
    }
  }

  // The format the parser reads

  /** A field as a bit file stores it: its length, most significant byte first, then its bytes. */
  function Field(b: seq<byte>): seq<byte> { [Byte1(|b|), Byte0(|b|)] + b }

  /** What precedes the configuration data of a Xilinx bit file: a fixed first field, then design,
      part, date and time strings under the tags 'a' to 'd', and the data length under 'e'. */
  datatype XilinxHeader = XilinxHeader(
    first: seq<byte>, design: seq<byte>, part: seq<byte>, date: seq<byte>, time: seq<byte>, dataLength: nat)

  predicate Fits(h: XilinxHeader) {
    && |h.first| == 9
    && |h.design| <= 256 && |h.date| <= 256 && |h.time| <= 256
    && |h.part| < PART_BUFFER && 0 !in h.part
    && h.dataLength < U32_LIMIT
  }

  function Preamble(h: XilinxHeader): seq<byte> { [0, 9] + h.first + [0, 1, 0x61] }

  /** What follows the preamble when `payload` is the configuration data. */
  function AfterPreamble(h: XilinxHeader, payload: seq<byte>): seq<byte> {
    [] + Field(h.design) +
    ([0x62] + Field(h.part + [0]) +
     ([0x63] + Field(h.date) +
      ([0x64] + Field(h.time) +
       (TaggedLength(h) + payload))))
  }

  function Serialise(h: XilinxHeader): seq<byte> { Preamble(h) + AfterPreamble(h, []) }

  function TaggedLength(h: XilinxHeader): seq<byte> {
    [0x65, Byte3(h.dataLength), Byte2(h.dataLength), Byte1(h.dataLength), Byte0(h.dataLength)]
  }

  /** The format byte by byte: lengths are two bytes, the upper one first, and the part name carries
      its NUL. */
  lemma HeaderBytes(h: XilinxHeader)
    requires Fits(h)
    ensures var n := h.dataLength;
      var design := [|h.design| / 256, |h.design| % 256] + h.design;
      var part := [0, |h.part| + 1] + (h.part + [0]);
      var date := [|h.date| / 256, |h.date| % 256] + h.date;
      var time := [|h.time| / 256, |h.time| % 256] + h.time;
      var length := [0x65, n / 0x100_0000, n / 0x1_0000 % 0x100, n / 0x100 % 0x100, n % 0x100];
      Serialise(h) ==
      [0x00, 0x09] + h.first + [0x00, 0x01, 0x61] +
      ([] + design + ([0x62] + part + ([0x63] + date + ([0x64] + time + length))))
  {
    FieldBytes(h.design);
    FieldBytes(h.part + [0]);
    FieldBytes(h.date);
    FieldBytes(h.time);
    LengthBytes(h);
    hide Field, TaggedLength;
    assert TaggedLength(h) + [] == TaggedLength(h);
  }

  lemma FieldBytes(b: seq<byte>)
    requires |b| <= 256
    ensures Field(b) == [|b| / 256, |b| % 256] + b
  {
  }

  lemma LengthBytes(h: XilinxHeader)
    requires h.dataLength < U32_LIMIT
    ensures var n := h.dataLength;
      n / 0x100_0000 < 0x100 &&
      TaggedLength(h) == [0x65, n / 0x100_0000, n / 0x1_0000 % 0x100, n / 0x100 % 0x100, n % 0x100]
  {
  }

  /** The other headers: a file shorter than 14 bytes is refused, and so is one that starts with
      neither 00 09 nor the word Version; behind 00 09 a first field not followed by 00 01 'a' ends the
      header, with the part name left as it was. */
  lemma OtherHeaders(d: seq<byte>, stack: Stack, text: TextHeader)
    requires StackFrame(stack)
    ensures |d| < 14 ==> ParseHeader(d, stack, text) == Rejected
    ensures |d| >= 14 && d[..2] != [0, 9] && d[..7] != [0x56, 0x65, 0x72, 0x73, 0x69, 0x6F, 0x6E] ==>
      ParseHeader(d, stack, text) == Rejected
    ensures |d| >= 14 && d[..7] == [0x56, 0x65, 0x72, 0x73, 0x69, 0x6F, 0x6E] ==>
      ParseHeader(d, stack, text) == text(d)
    ensures |d| >= 14 && d[..2] == [0, 9] && d[11..14] != [0, 1, 0x61] ==>
      ParseHeader(d, stack, text) == Accepted(14, 14, false, stack.part)
  {
    hide XilinxFields;
    if |d| >= 14 {
      assert d[..2] == [d[0], d[1]] && d[11..14] == [d[11], d[12], d[13]];
      assert d[0] == d[..7][0] && d[1] == d[..7][1];
    }
  }

  lemma HeaderLength(h: XilinxHeader)
    requires Fits(h)
    ensures 2 <= |Serialise(h)| < 0x1000 && Serialise(h)[0] == 0 && Serialise(h)[1] == 9
  {
  }

  /** A read that the file can fill takes exactly the next bytes. */
  lemma ReadNext(d: seq<byte>, s: Scan, bytes: seq<byte>, rest: seq<byte>)
    requires InFile(s, d) && s.Scan? && d[s.pos..] == bytes + rest && |bytes| <= HEADER_BUFFER
    ensures var r := ReadInto(d, s, |bytes|);
      r == Scan(s.pos + |bytes|, s.eof, bytes + s.buff[|bytes|..]) && d[r.pos..] == rest
  {
    assert |bytes| <= |d[s.pos..]| == |d| - s.pos;
    assert d[s.pos..s.pos + |bytes|] == d[s.pos..][..|bytes|] == bytes;
    assert d[s.pos + |bytes|..] == d[s.pos..][|bytes|..] == rest;
  }

  /** And so a field the file holds is taken whole, whatever was in the buffer before. */
  lemma ReadNextField(d: seq<byte>, s: Scan, tag: seq<byte>, b: seq<byte>, rest: seq<byte>)
    requires InFile(s, d) && s.Scan? && |tag| <= 1 && |b| <= HEADER_BUFFER
    requires d[s.pos..] == tag + Field(b) + rest
    ensures var r := ReadField(d, s, |tag| + 2);
      && r.Scan? && r.pos == s.pos + |tag + Field(b)| && r.eof == s.eof
      && r.buff[..|b|] == b && d[r.pos..] == rest
  {
    var lead := tag + [Byte1(|b|), Byte0(|b|)];
    assert d[s.pos..] == lead + (b + rest);
    ReadNext(d, s, lead, b + rest);
    var t := ReadInto(d, s, |lead|);
    assert t.buff[|tag|] == Byte1(|b|) && t.buff[|tag| + 1] == Byte0(|b|);
    assert Byte1(|b|) as int * 256 + Byte0(|b|) == |b|;
    ReadNext(d, t, b, rest);
  }

  lemma {:induction false} StringBeforeNul(s: seq<byte>, buff: seq<byte>)
    requires 0 !in s && |s| < |buff| && buff[..|s| + 1] == s + [0]
    ensures StringAt(buff) == Text(s)
  {
    assert buff[..|s| + 1][0] == buff[0];
    if s != [] {
      assert buff[0] == s[0];
      assert buff[1..][..|s|] == buff[..|s| + 1][1..];
      StringBeforeNul(s[1..], buff[1..]);
    }
  }

  lemma {:induction false} NoNul(buff: seq<byte>)
    requires 0 !in buff
    ensures StringAt(buff) == Unterminated
  {
    if buff != [] {
      NoNul(buff[1..]);
    }
  }

  lemma AfterPreambleSplit(h: XilinxHeader, payload: seq<byte>)
    ensures AfterPreamble(h, payload) == AfterPreamble(h, []) + payload
  {
  }

  lemma FieldsRoundTrip(d: seq<byte>, s1: Scan, h: XilinxHeader, payload: seq<byte>)
    requires Fits(h) && InFile(s1, d) && s1.Scan? && d[s1.pos..] == AfterPreamble(h, payload)
    ensures var end := s1.pos + |AfterPreamble(h, [])|;
      XilinxFields(d, s1) == Accepted(end, end, s1.eof, h.part)
  {
    hide ReadInto, StringAt;
    var r5 := TaggedLength(h) + payload;
    var r4 := [0x64] + Field(h.time) + r5;
    var r3 := [0x63] + Field(h.date) + r4;
    var r2 := [0x62] + Field(h.part + [0]) + r3;
    ReadNextField(d, s1, [], h.design, r2);
    var s2 := ReadField(d, s1, 2);
    ReadNextField(d, s2, [0x62], h.part + [0], r3);
    var s3 := ReadField(d, s2, 3);
    StringBeforeNul(h.part, s3.buff);
    ReadNextField(d, s3, [0x63], h.date, r4);
    var s4 := ReadField(d, s3, 3);
    ReadNextField(d, s4, [0x64], h.time, r5);
    var s5 := ReadField(d, s4, 3);
    ReadNext(d, s5, TaggedLength(h), payload);
  }

  /** Header round trip: for every header that fits and every payload, the parser returns exactly
      the header's length, its part name, and the stream at the first configuration byte. */
  lemma HeaderRoundTrip(h: XilinxHeader, payload: seq<byte>, stack: Stack, text: TextHeader)
    requires Fits(h) && StackFrame(stack)
    ensures var n := |Serialise(h)|;
      ParseHeader(Serialise(h) + payload, stack, text) == Accepted(n, n, false, h.part)
    ensures (Serialise(h) + payload)[|Serialise(h)|..] == payload
  {
    hide AfterPreamble, XilinxFields;
    var d := Serialise(h) + payload;
    var s0 := Scan(0, false, stack.buff);
    AfterPreambleSplit(h, payload);
    assert d[0..] == Preamble(h) + AfterPreamble(h, payload);
    ReadNext(d, s0, Preamble(h), AfterPreamble(h, payload));
    var s1 := ReadInto(d, s0, 14);
    assert s1.buff[..14] == Preamble(h);
    assert s1.buff[0] == 0 && s1.buff[1] == 9 && s1.buff[11] == 0 && s1.buff[12] == 1 && s1.buff[13] == 0x61;
    FieldsRoundTrip(d, s1, h, payload);
  }
}
