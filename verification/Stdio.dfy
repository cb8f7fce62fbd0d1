/** The read side of a C stream: a read that comes up short sets the end-of-file flag, and reaching
    the end exactly does not. */
module Stdio {
  import opened Bytes

  function Min(a: nat, b: nat): nat { if a < b then a else b }

  lemma SliceOfRest(d: seq<byte>, from: nat, lo: nat, hi: nat)
    requires lo <= hi && from + hi <= |d|
    ensures d[from..][lo..hi] == d[from + lo..from + hi]
  {
  }

  class Stream {
    const data: seq<byte>
    var pos: nat
    var eof: bool

    ghost predicate Valid()
      reads this
    {
      pos <= |data| && (eof ==> pos == |data|)
    }

    constructor (data: seq<byte>)
      ensures Valid() && this.data == data && pos == 0 && !eof
    {
      this.data, pos, eof := data, 0, false;
    }

    /** fread(buff, 1, n, fp) */
    method Read(buff: array<byte>, n: nat) returns (k: nat)
      requires Valid() && Min(n, |data| - pos) <= buff.Length
      modifies this, buff
      ensures Valid() && k == Min(n, |data| - old(pos)) && pos == old(pos) + k
      ensures eof == (old(eof) || k < n)
      ensures buff[..] == data[old(pos)..pos] + old(buff[..])[k..]
    {
      k := Min(n, |data| - pos);
      forall i | 0 <= i < k {
        buff[i] := data[pos + i];
      }
      pos := pos + k;
      eof := eof || k < n;
    }

    /** Leaves the stream where a header parser left it. */
    method Seek(pos: nat, eof: bool)
      requires pos <= |data| && (eof ==> pos == |data|)
      modifies this
      ensures Valid() && this.pos == pos && this.eof == eof
    {
      this.pos, this.eof := pos, eof;
    }
  }
}
