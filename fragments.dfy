/** USB report fragmentation, common to both driver generations: a packet is cut
    into consecutive chunks and every chunk travels behind the five-byte header
    [reportId = 2, chunk length + 3, packet index, fragment count, fragment index]. */
module Fragments {
  import opened Usb

  const WriteReportId: byte := 2
  const HeaderSize := 5

  function Min(a: int, b: int): int { if a <= b then a else b }

  /** Kotlin's `chunked(size)`: windows of `size` consecutive bytes, the last
      one possibly shorter; the empty list has no chunks. */
  function Chunked(s: seq<byte>, size: nat): (chunks: seq<seq<byte>>)
    requires size > 0
    ensures forall i :: 0 <= i < |chunks| ==> 0 < |chunks[i]| <= size
    ensures forall i :: 0 <= i < |chunks| - 1 ==> |chunks[i]| == size
    decreases |s|
  {
    if s == [] then []
    else if |s| <= size then [s]
    else [s[..size]] + Chunked(s[size..], size)
  }

  /** ceil(|s| / size) chunks. */
  lemma {:induction false} ChunkCount(s: seq<byte>, size: nat)
    requires size > 0
    ensures |Chunked(s, size)| == (|s| + size - 1) / size
    decreases |s|
  {
    if s == [] {
      DivUnique(size - 1, size, 0, size - 1);
    } else if |s| <= size {
      DivUnique(|s| + size - 1, size, 1, |s| - 1);
    } else {
      ChunkCount(s[size..], size);
      DivStep(|s| + size - 1, size);
    }
  }

  /** Counting whole fragments and adding one for a partial last fragment
      gives ceil(n / size). */
  lemma CeilDiv(n: nat, size: nat)
    requires size > 0
    ensures n / size + (if n % size != 0 then 1 else 0) == (n + size - 1) / size
  {
    var q, r := n / size, n % size;
    if r == 0 {
      DivUnique(n + size - 1, size, q, size - 1);
    } else {
      DivUnique(n + size - 1, size, q + 1, r - 1);
    }
  }

  lemma DivStep(a: int, size: nat)
    requires size > 0 && a >= size
    ensures a / size == (a - size) / size + 1
  {
    var q, r := (a - size) / size, (a - size) % size;
    assert a == q * size + r + size;
    assert a == (q + 1) * size + r;
    DivUnique(a, size, q + 1, r);
  }

  lemma DivUnique(a: int, size: nat, q: int, r: int)
    requires size > 0 && 0 <= r < size && a == q * size + r
    ensures a / size == q
  {
    var q', r' := a / size, a % size;
    assert (q - q') * size == r' - r;
    if q > q' {
      MulMono(q - q', size);
    } else if q < q' {
      MulMono(q' - q, size);
    }
  }

  /** A counter taken modulo `size` steps by one and wraps to 0. */
  lemma ModSucc(m: nat, size: nat)
    requires size > 0
    ensures (m + 1) % size == if m % size == size - 1 then 0 else m % size + 1
  {
    var q, r := m / size, m % size;
    if r == size - 1 {
      DivUnique(m + 1, size, q + 1, 0);
    } else {
      DivUnique(m + 1, size, q, r + 1);
    }
  }

  lemma SliceShift<T>(s: seq<T>, k: nat, a: nat, b: nat)
    requires k <= |s| && a <= b <= |s| - k
    ensures s[k..][a..b] == s[k + a..k + b]
  {
  }

  lemma MulPred(i: nat, size: nat) returns (lo: int, p: int)
    requires i > 0
    ensures lo == (i - 1) * size && p == i * size && p == lo + size
  {
    lo, p := (i - 1) * size, i * size;
  }

  lemma MulMono(k: int, size: nat)
    requires k >= 1
    ensures k * size >= size
  {
  }

  function Flatten(chunks: seq<seq<byte>>): seq<byte>
  {
    if chunks == [] then [] else chunks[0] + Flatten(chunks[1..])
  }

  /** Chunking loses nothing and reorders nothing. */
  lemma {:induction false} FlattenChunked(s: seq<byte>, size: nat)
    requires size > 0
    ensures Flatten(Chunked(s, size)) == s
    decreases |s|
  {
    if s != [] && |s| > size {
      FlattenChunked(s[size..], size);
      assert s == s[..size] + s[size..];
    }
  }

  /** Chunk i is the window starting at byte i * size, as a running read
      position that advances by `size` per fragment finds it. */
  lemma ChunkAt(s: seq<byte>, size: nat, i: nat)
    requires size > 0 && i < |Chunked(s, size)|
    ensures i * size < |s|
    ensures Chunked(s, size)[i] == s[i * size .. Min(|s|, i * size + size)]
  {
    ChunkFrom(s, size, i, i * size);
  }

  /** ChunkAt with the offset i * size named, so that the induction is linear. */
  lemma {:induction false} ChunkFrom(s: seq<byte>, size: nat, i: nat, off: int)
    requires size > 0 && i < |Chunked(s, size)| && off == i * size
    ensures 0 <= off < |s|
    ensures Chunked(s, size)[i] == s[off .. Min(|s|, off + size)]
    decreases i
  {
    if i > 0 {
      var t := s[size..];
      var lo, p := MulPred(i, size);
      assert Chunked(s, size)[i] == Chunked(t, size)[i - 1];
      ChunkFrom(t, size, i - 1, lo);
      var hi := Min(|t|, lo + size);
      assert size + hi == Min(|s|, off + size);
      SliceShift(s, size, lo, hi);
    }
  }

  /** One fragment: the header, then the chunk.  Every header field goes
      through `toByte()` in both drivers. */
  function Frame(payload: seq<byte>, packId: int, count: int, index: int): seq<byte>
  {
    [WriteReportId, ToByte(|payload| + 3), ToByte(packId), ToByte(count), ToByte(index)] + payload
  }

  /** The fragments of one packet, numbered from 1, sharing one packet index. */
  function Frames(chunks: seq<seq<byte>>, packId: int): (frames: seq<seq<byte>>)
    ensures |frames| == |chunks|
  {
    seq(|chunks|, i requires 0 <= i < |chunks| => Frame(chunks[i], packId, |chunks|, i + 1))
  }

  /** What a receiver can check of fragment `index` out of `count`. */
  predicate HeaderOk(f: seq<byte>, packId: byte, count: int, index: int)
  {
    |f| >= HeaderSize && f[0] == WriteReportId && f[1] == ToByte(|f| - 2)
    && f[2] == packId && f[3] == ToByte(count) && f[4] == ToByte(index)
  }

  function Payloads(frames: seq<seq<byte>>): seq<seq<byte>>
    requires forall i :: 0 <= i < |frames| ==> |frames[i]| >= HeaderSize
  {
    seq(|frames|, i requires 0 <= i < |frames| => frames[i][HeaderSize..])
  }

  /** A receiver's reassembly: every header must name the first fragment's
      packet index, the fragment count and its own position; the payloads are
      then joined in fragment order. */
  function Reassemble(frames: seq<seq<byte>>): Option<seq<byte>>
  {
    if frames != [] && |frames[0]| >= HeaderSize
       && forall i :: 0 <= i < |frames| ==> HeaderOk(frames[i], frames[0][2], |frames|, i + 1)
    then Some(Flatten(Payloads(frames)))
    else None
  }

  /** Framing round trip: the fragments of any non-empty list of chunks
      reassemble to the chunks joined in order. */
  lemma ReassembleFrames(chunks: seq<seq<byte>>, packId: int)
    requires chunks != []
    ensures Reassemble(Frames(chunks, packId)) == Some(Flatten(chunks))
  {
    var frames := Frames(chunks, packId);
    forall i | 0 <= i < |frames|
      ensures HeaderOk(frames[i], frames[0][2], |frames|, i + 1)
      ensures frames[i][HeaderSize..] == chunks[i]
    {
      assert frames[i] == Frame(chunks[i], packId, |chunks|, i + 1);
    }
    assert Payloads(frames) == chunks;
  }

  /** Fragmenting transport round trip: chunk, frame, reassemble gives back the packet. */
  lemma FragmentRoundTrip(s: seq<byte>, size: nat, packId: int)
    requires size > 0 && s != []
    ensures Reassemble(Frames(Chunked(s, size), packId)) == Some(s)
  {
    ReassembleFrames(Chunked(s, size), packId);
    FlattenChunked(s, size);
  }

  /** The header bytes of fragment i, read as plain numbers when none of them
      is truncated by `toByte()`. */
  lemma FrameHeader(chunks: seq<seq<byte>>, packId: int, i: nat)
    requires i < |chunks| && 0 <= packId < 256 && |chunks| < 256 && |chunks[i]| + 3 < 256
    ensures Frames(chunks, packId)[i][..HeaderSize] == [2, |chunks[i]| + 3, packId, |chunks|, i + 1]
    ensures Frames(chunks, packId)[i][HeaderSize..] == chunks[i]
  {
  }
}
