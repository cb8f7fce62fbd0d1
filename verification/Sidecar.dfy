/** The checksum file beside a backup: 64 hex digits, then a file name. Hashing is an abstract
    function of the bytes fed to it in order. */
module Sidecar {
  import opened Bytes

  const DIGEST_LENGTH := 32

  type Hash = h: seq<byte> | |h| == DIGEST_LENGTH witness seq(DIGEST_LENGTH, _ => 0)

  type Files = map<seq<byte>, seq<byte>>

  const EXTENSION: seq<byte> := [0x2E, 0x73, 0x68, 0x61, 0x32, 0x35, 0x36]

  /** One digit of "%02x". */
  function HexDigit(n: nat): byte
    requires n < 16
  {
    if n < 10 then 0x30 + n else 0x61 + (n - 10)
  }

  predicate IsHex(c: byte) { 0x30 <= c <= 0x39 || 0x41 <= c <= 0x46 || 0x61 <= c <= 0x66 }

  function HexValue(c: byte): (n: nat)
    requires IsHex(c)
    ensures n < 16
  {
    if c <= 0x39 then c - 0x30 else if c <= 0x46 then c - 0x41 + 10 else c - 0x61 + 10
  }

  function Hex(bytes: seq<byte>): (s: seq<byte>)
    ensures |s| == 2 * |bytes|
  {
    if bytes == [] then [] else [HexDigit(bytes[0] / 16), HexDigit(bytes[0] % 16)] + Hex(bytes[1..])
  }

  datatype Scanned = NoNumber | Number(value: byte)

  /** The white space scanning skips. */
  predicate IsSpace(c: byte) { c == 0x20 || 0x09 <= c <= 0x0D }

  function SkipSpace(s: seq<byte>): seq<byte> { if s != [] && IsSpace(s[0]) then SkipSpace(s[1..]) else s }

  /** "%2hhx": after white space, two characters that make a number, of two digits, of one if the
      second is no digit, or of a sign and a digit; "0x" is the start of a number with no digits. */
  function ScanByte(s: seq<byte>): Scanned {
    var t := SkipSpace(s);
    if t == [] then NoNumber
    else
      var second := if |t| > 1 then t[1] else 0;
      if IsHex(t[0]) then
        if IsHex(second) then Number(16 * HexValue(t[0]) + HexValue(second))
        else if t[0] == 0x30 && (second == 0x58 || second == 0x78) then NoNumber
        else Number(HexValue(t[0]))
      else if (t[0] == 0x2B || t[0] == 0x2D) && IsHex(second) then
        Number(if t[0] == 0x2B then HexValue(second) else (0x100 - HexValue(second)) % 0x100)
      else NoNumber
  }

  datatype Digest = BadDigest | GoodDigest(bytes: seq<byte>)

  /** The bytes scanned at every second character, when each of them scans; white space makes a
      scan run on into the next pairs. */
  function ScanHex(s: seq<byte>): (d: Digest)
    requires |s| % 2 == 0
    ensures d.GoodDigest? ==> |d.bytes| == |s| / 2
  {
    if s == [] then GoodDigest([])
    else
      var first, rest := ScanByte(s), ScanHex(s[2..]);
      if first.NoNumber? || rest.BadDigest? then BadDigest else GoodDigest([first.value] + rest.bytes)
  }

  /** Printing in hex and scanning pairs invert each other. */
  lemma {:induction false} HexRoundTrip(bytes: seq<byte>)
    ensures |Hex(bytes)| % 2 == 0 && ScanHex(Hex(bytes)) == GoodDigest(bytes)
  {
    hide ScanByte, HexDigit;
    if bytes != [] {
      HexRoundTrip(bytes[1..]);
      assert Hex(bytes)[2..] == Hex(bytes[1..]);
      DigitPlace(bytes[0] / 16);
      DigitPlace(bytes[0] % 16);
      PairScans(Hex(bytes), bytes[0] / 16, bytes[0] % 16);
    }
  }

  /** The sixteen digits as they are written, and the other way to write the last six. */
  const DIGITS: seq<byte> :=
    [0x30, 0x31, 0x32, 0x33, 0x34, 0x35, 0x36, 0x37, 0x38, 0x39, 0x61, 0x62, 0x63, 0x64, 0x65, 0x66]

  const CAPITALS: seq<byte> :=
    [0x30, 0x31, 0x32, 0x33, 0x34, 0x35, 0x36, 0x37, 0x38, 0x39, 0x41, 0x42, 0x43, 0x44, 0x45, 0x46]

  /** Each byte is printed as the digit of its upper half, then that of its lower half. */
  lemma {:induction false} HexPlaces(bytes: seq<byte>, i: nat)
    requires i < |bytes|
    ensures Hex(bytes)[2 * i] == DIGITS[bytes[i] / 16] && Hex(bytes)[2 * i + 1] == DIGITS[bytes[i] % 16]
  {
    if i == 0 {
      DigitPlace(bytes[0] / 16);
      DigitPlace(bytes[0] % 16);
    } else {
      HexPlaces(bytes[1..], i - 1);
      assert Hex(bytes)[2..] == Hex(bytes[1..]);
      assert Hex(bytes)[2 * i] == Hex(bytes)[2..][2 * (i - 1)];
      assert Hex(bytes)[2 * i + 1] == Hex(bytes)[2..][2 * (i - 1) + 1];
    }
  }

  lemma DigitPlace(n: nat)
    requires n < 16
    ensures HexDigit(n) == DIGITS[n]
  {
  }

  /** A pair of digits, in either case, scans as its number. */
  lemma PairScans(s: seq<byte>, u: nat, v: nat)
    requires |s| >= 2 && u < 16 && v < 16
    requires (s[0] == DIGITS[u] || s[0] == CAPITALS[u]) && (s[1] == DIGITS[v] || s[1] == CAPITALS[v])
    ensures ScanByte(s) == Number(16 * u + v)
  {
    DigitScans(s[0], u);
    DigitScans(s[1], v);
  }

  lemma DigitScans(c: byte, u: nat)
    requires u < 16 && (c == DIGITS[u] || c == CAPITALS[u])
    ensures IsHex(c) && HexValue(c) == u && !IsSpace(c)
  {
  }

  /** Anything that does not start with a digit, a sign or white space is no number. */
  lemma OthersDoNotScan(s: seq<byte>)
    requires s != [] ==>
      s[0] !in DIGITS && s[0] !in CAPITALS && s[0] !in [0x09, 0x0A, 0x0B, 0x0C, 0x0D, 0x20, 0x2B, 0x2D]
    ensures ScanByte(s) == NoNumber
  {
    if s != [] {
      HexDigits(s[0]);
    }
  }

  lemma HexDigits(c: byte)
    ensures IsHex(c) ==> c in DIGITS || c in CAPITALS
  {
    if IsHex(c) {
      assert if c <= 0x39 then c == DIGITS[c - 0x30]
             else if c <= 0x46 then c == CAPITALS[c - 0x37] else c == DIGITS[c - 0x57];
    }
  }

  /** What scanning also takes: white space in front, a single digit, a digit behind a sign. */
  lemma SpaceScans(s: seq<byte>, c: byte)
    requires c in [0x09, 0x0A, 0x0B, 0x0C, 0x0D, 0x20]
    ensures ScanByte([c] + s) == ScanByte(s)
  {
    assert ([c] + s)[1..] == s;
  }

  lemma DigitAloneScans(s: seq<byte>, v: nat)
    requires v < 16 && (s == [] || (s[0] !in DIGITS && s[0] !in CAPITALS && s[0] != 0x58 && s[0] != 0x78))
    ensures ScanByte([DIGITS[v]] + s) == Number(v)
  {
    DigitScans(DIGITS[v], v);
    if s != [] {
      HexDigits(s[0]);
    }
  }

  lemma SignedScans(s: seq<byte>, v: nat)
    requires v < 16
    ensures ScanByte([0x2B, DIGITS[v]] + s) == Number(v)
    ensures ScanByte([0x2D, DIGITS[v]] + s) == Number(if v == 0 then 0 else 0x100 - v)
  {
    DigitScans(DIGITS[v], v);
  }

  /** The bytes scanned, place by place. */
  lemma {:induction false} ScannedBytes(s: seq<byte>, d: seq<byte>)
    requires |s| == 2 * |d|
    ensures ScanHex(s) == GoodDigest(d) <==> forall j | 0 <= j < |d| :: ScanByte(s[2 * j..]) == Number(d[j])
  {
    hide ScanByte;
    if d != [] {
      ScannedBytes(s[2..], d[1..]);
      assert forall j | 0 < j < |d| :: s[2 * j..] == s[2..][2 * (j - 1)..];
      assert s[2 * 0..] == s;
      var rest := ScanHex(s[2..]);
      assert d == [d[0]] + d[1..];
      if ScanHex(s) == GoodDigest(d) {
        assert ScanByte(s).Number? && rest.GoodDigest? && [ScanByte(s).value] + rest.bytes == d;
        assert rest.bytes == d[1..];
        forall j | 0 <= j < |d|
          ensures ScanByte(s[2 * j..]) == Number(d[j])
        {
          if j > 0 {
            assert ScanByte(s[2..][2 * (j - 1)..]) == Number(d[1..][j - 1]);
          }
        }
      }
      if forall j | 0 <= j < |d| :: ScanByte(s[2 * j..]) == Number(d[j]) {
        assert ScanByte(s[2 * 0..]) == Number(d[0]);
        forall j | 0 <= j < |d[1..]|
          ensures ScanByte(s[2..][2 * j..]) == Number(d[1..][j])
        {
          assert ScanByte(s[2 * (j + 1)..]) == Number(d[j + 1]);
        }
      }
    }
  }

  /** The part of a path behind its last slash. */
  function Basename(path: seq<byte>): seq<byte> {
    if path == [] then []
    else if path[|path| - 1] == 0x2F then []
    else Basename(path[..|path| - 1]) + [path[|path| - 1]]
  }

  /** A name without slashes is its own, and behind a directory it is what remains. */
  lemma {:induction false} NameBehindSlash(dir: seq<byte>, file: seq<byte>)
    requires 0x2F !in file
    ensures Basename(file) == file && Basename(dir + [0x2F] + file) == file
  {
    var path, n := dir + [0x2F] + file, |file| - 1;
    if file == [] {
      assert path[|path| - 1] == 0x2F;
    } else {
      NameBehindSlash(dir, file[..n]);
      assert path[|path| - 1] == file[n] != 0x2F;
      assert path[..|path| - 1] == dir + [0x2F] + file[..n];
      assert file == file[..n] + [file[n]];
    }
  }

  /** "%s *./%s\n" */
  function Line(hash: Hash, path: seq<byte>): seq<byte> {
    Hex(hash) + [0x20, 0x2A, 0x2E, 0x2F] + Basename(path) + [0x0A]
  }

  /** The checksum file exists and its first 64 characters are the hash of the file. */
  predicate Matches(digest: seq<byte> -> Hash, files: Files, name: seq<byte>) {
    && name + EXTENSION in files && name in files
    && var sidecar := files[name + EXTENSION];
       |sidecar| >= 2 * DIGEST_LENGTH && ScanHex(sidecar[..2 * DIGEST_LENGTH]) == GoodDigest(digest(files[name]))
  }

  /** Both files are there, and the first 64 characters of the checksum file scan pair by pair as the
      hash of the other. */
  lemma MatchesBytes(digest: seq<byte> -> Hash, files: Files, name: seq<byte>)
    ensures Matches(digest, files, name) <==>
      var beside := name + [0x2E, 0x73, 0x68, 0x61, 0x32, 0x35, 0x36];
      && name in files && beside in files && |files[beside]| >= 64
      && forall j | 0 <= j < 32 :: ScanByte(files[beside][..64][2 * j..]) == Number(digest(files[name])[j])
  {
    hide ScanByte, ScanHex;
    var beside := name + EXTENSION;
    if name in files && beside in files && |files[beside]| >= 64 {
      ScannedBytes(files[beside][..64], digest(files[name]));
    }
  }

  /** A checksum file that starts with the hex digits of a hash is accepted exactly for files with
      that hash. */
  lemma HexMatches(digest: seq<byte> -> Hash, files: Files, name: seq<byte>, hash: Hash, rest: seq<byte>)
    requires name in files && name + EXTENSION in files && files[name + EXTENSION] == Hex(hash) + rest
    ensures Matches(digest, files, name) <==> digest(files[name]) == hash
  {
    hide ScanHex;
    HexRoundTrip(hash);
    assert files[name + EXTENSION][..64] == Hex(hash);
  }

  lemma MatchesFiles(digest: seq<byte> -> Hash, files: Files, name: seq<byte>)
    ensures Matches(digest, files, name) ==> name in files
  {
  }

  /** A file stored with the line written for its bytes passes the check. */
  lemma LineMatches(digest: seq<byte> -> Hash, files: Files, name: seq<byte>, content: seq<byte>)
    requires name in files && files[name] == content
    requires name + EXTENSION in files && files[name + EXTENSION] == Line(digest(content), name)
    ensures Matches(digest, files, name)
  {
    var hash := digest(content);
    HexRoundTrip(hash);
    assert Line(hash, name)[..2 * DIGEST_LENGTH] == Hex(hash);
  }
}
