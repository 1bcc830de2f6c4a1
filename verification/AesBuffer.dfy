/** Encrypting a gather buffer in place (libs/crypto/aes.cc): one stream over all its segments. */
module AesBuffers {
  import opened AesModes
  import opened Ciphers
  import opened FlatBytes
  import opened GatherBuffers
  import opened Sequences

  /** The bytes up to some place streamed, those after it still to do. */
  function StreamedUpTo(c: Cipher, iv: seq<Byte>, all: seq<Byte>, at: nat): seq<Byte>
    requires at <= |all|
  {
    Streamed(c, iv, 0, all[..at]) + all[at..]
  }

  lemma StreamedOn(c: Cipher, iv: seq<Byte>, all: seq<Byte>, at: nat, n: nat)
    requires at + n <= |all|
    ensures var was := StreamedUpTo(c, iv, all, at);
            && was[at..at + n] == all[at..at + n]
            && was[..at] + Streamed(c, iv, at, all[at..at + n]) + was[at + n..] == StreamedUpTo(c, iv, all, at + n)
  {
    var was, next := StreamedUpTo(c, iv, all, at), StreamedUpTo(c, iv, all, at + n);
    assert was[..at] == Streamed(c, iv, 0, all[..at]) && was[at + n..] == all[at + n..];
    assert Streamed(c, iv, 0, all[..at]) + Streamed(c, iv, at, all[at..at + n]) == Streamed(c, iv, 0, all[..at + n]);
  }

  /** Encrypt or decrypt a buffer: only in counter mode with a 128-bit key and an initial counter, and then as if its bytes
      were in one piece. */
  method EncryptBuffer(aes: Aes, buffer: Buffer) returns (ok: bool)
    requires buffer.Valid()
    modifies buffer.segments
    ensures buffer.Valid() && ok == (aes.ctr && aes.bits == 128 && aes.ivValid)
    ensures buffer.Bytes() == if ok then Streamed(aes.cipher, aes.iv, 0, old(buffer.Bytes())) else old(buffer.Bytes())
  {
    ok := aes.ctr && aes.bits == 128 && aes.ivValid;
    if ok {
      StreamSegments(aes.cipher, aes.iv, buffer, buffer.Bytes());
    }
  }

  /** One stream goes through the segments in order. */
  method StreamSegments(c: Cipher, iv: seq<Byte>, buffer: Buffer, ghost all: seq<Byte>)
    requires buffer.Valid() && buffer.Bytes() == all
    modifies buffer.segments
    ensures buffer.Valid() && buffer.Bytes() == Streamed(c, iv, 0, all)
  {
    var i, at := 0, 0;
    NothingStreamed(c, iv, buffer.Chunks(), all);
    while i < buffer.count
      invariant 0 <= i <= buffer.count && buffer.Valid()
      invariant at <= |all| && at == Before(buffer.Chunks(), i) && buffer.Bytes() == StreamedUpTo(c, iv, all, at)
    {
      at := StreamSegment(c, iv, buffer, i, at, all);
      i := i + 1;
    }
    AllStreamed(c, iv, buffer.Chunks(), all, at);
  }

  lemma NothingStreamed(c: Cipher, iv: seq<Byte>, chunks: seq<seq<Byte>>, all: seq<Byte>)
    ensures Before(chunks, 0) == 0 && StreamedUpTo(c, iv, all, 0) == all
  {
    assert chunks[..0] == [];
  }

  lemma AllStreamed(c: Cipher, iv: seq<Byte>, chunks: seq<seq<Byte>>, all: seq<Byte>, at: nat)
    requires at <= |all| && at == Before(chunks, |chunks|) && Flat(chunks) == StreamedUpTo(c, iv, all, at)
    ensures Flat(chunks) == Streamed(c, iv, 0, all)
  {
    assert chunks[..|chunks|] == chunks;
    assert all[..|all|] == all;
  }

  method StreamSegment(c: Cipher, iv: seq<Byte>, buffer: Buffer, i: nat, at: nat, ghost all: seq<Byte>) returns (next: nat)
    requires buffer.Valid() && i < buffer.count
    requires at <= |all| && at == Before(buffer.Chunks(), i) && buffer.Bytes() == StreamedUpTo(c, iv, all, at)
    modifies buffer.segments
    ensures buffer.Valid() && next <= |all| && next == Before(buffer.Chunks(), i + 1)
    ensures buffer.Bytes() == StreamedUpTo(c, iv, all, next)
  {
    var view := buffer.segments[i].View();
    next := at + |view|;
    NextChunk(c, iv, buffer.Chunks(), i, all);
    buffer.OverwriteSpliced(i, 0, Streamed(c, iv, at, view), at, StreamedUpTo(c, iv, all, next));
  }

  /** The next chunk, streamed from where it begins. */
  lemma NextChunk(c: Cipher, iv: seq<Byte>, chunks: seq<seq<Byte>>, i: nat, all: seq<Byte>)
    requires i < |chunks| && Before(chunks, i) <= |all| && Flat(chunks) == StreamedUpTo(c, iv, all, Before(chunks, i))
    ensures var at, n, was := Before(chunks, i), |chunks[i]|, Flat(chunks);
            && at + n <= |all| && Before(chunks, i + 1) == at + n
            && was[..at] + Streamed(c, iv, at, chunks[i]) + was[at + n..] == StreamedUpTo(c, iv, all, at + n)
  {
    var at, n := Before(chunks, i), |chunks[i]|;
    ChunkInFlat(chunks, i, 0, n);
    FlatSnoc(chunks, i);
    StreamedOn(c, iv, all, at, n);
    assert chunks[i] == chunks[i][0..n] == all[at..at + n];
  }
}
