/** What the page loops of eeprom.c make of a stream. The stream is read through file_buffer in
    chunks of 8192 bytes, but only whole pages are programmed and compared, so the last page runs
    on into whatever the buffer still holds. */
module Padding {
  import opened Bytes
  import opened Flash
  import opened Stdio

  const CHUNK := 8192
  const CHUNK_PAGES := 32

  /** The number of pages n bytes reach into. */
  function Pages(n: nat): (k: nat)
    ensures n <= k * PAGE_SIZE < n + PAGE_SIZE
  {
    (n + PAGE_SIZE - 1) / PAGE_SIZE
  }

  lemma PagesReached(n: nat, j: nat)
    requires j <= Pages(n) && n <= j * PAGE_SIZE
    ensures j == Pages(n)
  {
  }

  lemma ChunkPages(c: nat, k: nat)
    ensures Pages(c * CHUNK + k) == c * CHUNK_PAGES + Pages(k)
  {
  }

  lemma PagesMonotone(m: nat, n: nat)
    requires m <= n
    ensures Pages(m) <= Pages(n)
  {
  }

  /** The whole pages written for, or compared with, stream `p` when the buffer held `b` before:
      behind the end of the stream come the bytes one chunk back, or in the first chunk the bytes
      the buffer held. */
  function Image(p: seq<byte>, b: seq<byte>): (image: seq<byte>)
    requires |b| >= CHUNK
    ensures |image| == Pages(|p|) * PAGE_SIZE
  {
    seq(Pages(|p|) * PAGE_SIZE, q requires 0 <= q < Pages(|p|) * PAGE_SIZE =>
      if q < |p| then p[q] else if q >= CHUNK then p[q - CHUNK] else b[q])
  }

  /** The buffer once stream `p` has been read through it: every place holds the last byte read
      into it, if any. */
  function BufferAfter(p: seq<byte>, b: seq<byte>): (after: seq<byte>)
    requires |b| >= CHUNK
    ensures |after| == |b|
  {
    seq(|b|, i requires 0 <= i < |b| =>
      if i < CHUNK && i < |p| then p[i + (|p| - 1 - i) / CHUNK * CHUNK] else b[i])
  }

  lemma NothingRead(b: seq<byte>)
    requires |b| >= CHUNK
    ensures BufferAfter([], b) == b
  {
  }

  /** The last position below c * CHUNK + k that lands on place i of the buffer. */
  lemma LastVisit(c: nat, k: nat, i: nat)
    requires k <= CHUNK && i < CHUNK && i < c * CHUNK + k
    ensures i < k ==> i + (c * CHUNK + k - 1 - i) / CHUNK * CHUNK == c * CHUNK + i
    ensures i >= k ==> c > 0 && i + (c * CHUNK + k - 1 - i) / CHUNK * CHUNK == (c - 1) * CHUNK + i
  {
  }

  /** Reading the next chunk overwrites the start of the buffer and nothing else. */
  lemma NextChunk(p: seq<byte>, b: seq<byte>, c: nat, k: nat)
    requires |b| >= CHUNK && k <= CHUNK && c * CHUNK + k <= |p|
    ensures BufferAfter(p[..c * CHUNK + k], b) ==
            p[c * CHUNK..c * CHUNK + k] + BufferAfter(p[..c * CHUNK], b)[k..]
  {
    var m := c * CHUNK;
    var left, right := BufferAfter(p[..m + k], b), p[m..m + k] + BufferAfter(p[..m], b)[k..];
    forall i | 0 <= i < |b|
      ensures left[i] == right[i]
    {
      if i < CHUNK && i < m + k {
        LastVisit(c, k, i);
        if i < k {
          assert left[i] == p[..m + k][m + i] == p[m..m + k][i];
        } else {
          LastVisit(c, 0, i);
          assert left[i] == p[..m + k][(c - 1) * CHUNK + i];
          assert right[i] == BufferAfter(p[..m], b)[i] == p[..m][(c - 1) * CHUNK + i];
        }
      }
    }
  }

  /** A byte of the buffer in the middle of the stream is the image's byte. */
  lemma BufferByte(p: seq<byte>, b: seq<byte>, c: nat, k: nat, i: nat)
    requires |b| >= CHUNK && c * CHUNK + k <= |p| && k == Min(CHUNK, |p| - c * CHUNK)
    requires i < CHUNK && c * CHUNK + i < Pages(|p|) * PAGE_SIZE
    ensures BufferAfter(p[..c * CHUNK + k], b)[i] == Image(p, b)[c * CHUNK + i]
  {
    hide Pages;
    var m, read := c * CHUNK, p[..c * CHUNK + k];
    if i < m + k {
      LastVisit(c, k, i);
    }
    if i < k {
      assert BufferAfter(read, b)[i] == read[m + i];
    } else if i < m + k {
      assert BufferAfter(read, b)[i] == read[(c - 1) * CHUNK + i];
    }
  }

  /** A page taken from the buffer in the middle of the stream is the image's page. */
  lemma BufferPage(p: seq<byte>, b: seq<byte>, c: nat, k: nat, j: nat)
    requires |b| >= CHUNK && c * CHUNK + k <= |p| && k == Min(CHUNK, |p| - c * CHUNK)
    requires j * PAGE_SIZE < k
    ensures j < CHUNK_PAGES && c * CHUNK_PAGES + j < Pages(|p|)
    ensures var at := c * CHUNK + j * PAGE_SIZE;
      BufferAfter(p[..c * CHUNK + k], b)[j * PAGE_SIZE..(j + 1) * PAGE_SIZE] == Image(p, b)[at..at + PAGE_SIZE]
  {
    hide BufferAfter, Image;
    var at := c * CHUNK + j * PAGE_SIZE;
    assert at < |p| && at == (c * CHUNK_PAGES + j) * PAGE_SIZE;
    assert c * CHUNK_PAGES + j < Pages(|p|);
    var page := BufferAfter(p[..c * CHUNK + k], b)[j * PAGE_SIZE..(j + 1) * PAGE_SIZE];
    forall x | 0 <= x < PAGE_SIZE
      ensures page[x] == Image(p, b)[at..at + PAGE_SIZE][x]
    {
      BufferByte(p, b, c, k, j * PAGE_SIZE + x);
    }
  }

  lemma NothingProgrammed(f: seq<byte>, start: nat, p: seq<byte>, b: seq<byte>)
    requires |f| > 0 && |b| >= CHUNK
    ensures ProgramPages(f, start, Image(p, b), Pages(0)) == f
  {
  }

  /** One step of the page loop: the page the loop takes from the buffer is the image's next. */
  lemma ProgramBufferPage(f: seq<byte>, start: nat, p: seq<byte>, b: seq<byte>, c: nat, k: nat, j: nat)
    requires |f| > 0 && |b| >= CHUNK && c * CHUNK + k <= |p| && k == Min(CHUNK, |p| - c * CHUNK)
    requires j * PAGE_SIZE < k
    ensures j < CHUNK_PAGES && c * CHUNK_PAGES + j < Pages(|p|)
    ensures ProgramPages(f, start, Image(p, b), c * CHUNK_PAGES + j + 1) ==
            ProgramAt(ProgramPages(f, start, Image(p, b), c * CHUNK_PAGES + j), start + c * CHUNK + j * PAGE_SIZE,
                      BufferAfter(p[..c * CHUNK + k], b)[j * PAGE_SIZE..(j + 1) * PAGE_SIZE])
  {
    BufferPage(p, b, c, k, j);
    var n := c * CHUNK_PAGES + j;
    assert n * PAGE_SIZE == c * CHUNK + j * PAGE_SIZE;
  }

  /** The image does not depend on what the buffer held exactly when the stream fills a whole chunk
      of it or ends on a page boundary. */
  lemma ImageIndependence(p: seq<byte>)
    ensures (forall b1: seq<byte>, b2: seq<byte> | |b1| == |b2| == SECTOR_SIZE :: Image(p, b1) == Image(p, b2))
            <==> |p| >= CHUNK || |p| % PAGE_SIZE == 0
  {
    if |p| >= CHUNK || |p| % PAGE_SIZE == 0 {
      forall b1: seq<byte>, b2: seq<byte> | |b1| == |b2| == SECTOR_SIZE
        ensures Image(p, b1) == Image(p, b2)
      {
        ImageIndependent(p, b1, b2);
      }
    } else {
      var b1: seq<byte> := seq(SECTOR_SIZE, _ => 0);
      var b2: seq<byte> := seq(SECTOR_SIZE, _ => 1);
      assert Image(p, b1)[|p|] != Image(p, b2)[|p|];
      assert Image(p, b1) != Image(p, b2);
    }
  }

  lemma ImageIndependent(p: seq<byte>, b1: seq<byte>, b2: seq<byte>)
    requires |b1| >= CHUNK && |b2| >= CHUNK
    requires |p| >= CHUNK || |p| % PAGE_SIZE == 0
    ensures Image(p, b1) == Image(p, b2)
  {
  }

  /** A second pass over the same stream through the buffer the first pass left sees the same
      pages. */
  lemma ImageStable(p: seq<byte>, b: seq<byte>)
    requires |b| >= CHUNK
    ensures Image(p, BufferAfter(p, b)) == Image(p, b)
  {
    if |p| < CHUNK {
      forall q | |p| <= q < Pages(|p|) * PAGE_SIZE
        ensures Image(p, BufferAfter(p, b))[q] == Image(p, b)[q]
      {
      }
    }
  }

  lemma StreamInImage(p: seq<byte>, b: seq<byte>)
    requires |b| >= CHUNK
    ensures Image(p, b)[..|p|] == p
  {
  }

  /** A stream of whole pages is its own image. */
  lemma WholePages(p: seq<byte>, b: seq<byte>)
    requires |b| >= CHUNK && |p| % PAGE_SIZE == 0
    ensures Image(p, b) == p
  {
  }
}
