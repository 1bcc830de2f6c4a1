/** The flat byte sequence behind a list of chunks, shared by the gather buffer, its iterator and reader.

    `Flat` joins the chunks, `Before` is the flat index at which one of them starts, and `Slice` is what a
    copy of some length from some offset gives, cut at the end.

    The lemmas say what happens to the flat sequence when a chunk is added, dropped, cut or overwritten, and
    how a slice is put together chunk by chunk.  A byte is a number below 256 in a wrapper of its own; the
    conversion from a number keeps its low eight bits. */
module FlatBytes {
  import opened Sequences

  type Octet = n: nat | n < 256

  /** A byte, by the number it stands for. */
  datatype Byte = Byte(value: Octet)

  function Num(b: Byte): nat {
    b.value
  }

  /** The low eight bits of a number. */
  function AsByte(n: nat): Byte {
    Byte(n % 256)
  }

  lemma DigitBack(d: nat)
    requires d < 256
    ensures Num(AsByte(d)) == d
  {
  }

  function Repeated(b: Byte, n: nat): (r: seq<Byte>)
    ensures |r| == n && forall i | 0 <= i < n :: r[i] == b
  {
    if n == 0 then [] else Repeated(b, n - 1) + [b]
  }

  function Flat<T>(chunks: seq<seq<T>>): seq<T> {
    if chunks == [] then [] else chunks[0] + Flat(chunks[1..])
  }

  /** How many bytes come before chunk `i`. */
  function Before<T>(chunks: seq<seq<T>>, i: nat): nat
    requires i <= |chunks|
  {
    |Flat(chunks[..i])|
  }

  function Min(a: nat, b: nat): nat {
    if a < b then a else b
  }

  /** The slice from `offset` of at most `n` elements, cut at the end of the sequence. */
  function Slice<T>(s: seq<T>, offset: nat, n: nat): seq<T> {
    if offset >= |s| then [] else s[offset..offset + Min(n, |s| - offset)]
  }

  lemma {:induction false} FlatConcat<T>(a: seq<seq<T>>, b: seq<seq<T>>)
    ensures Flat(a + b) == Flat(a) + Flat(b)
  {
    if a == [] {
      assert a + b == b;
    } else {
      FlatConcat(a[1..], b);
      assert (a + b)[1..] == a[1..] + b;
      Assoc(a[0], Flat(a[1..]), Flat(b));
    }
  }

  lemma FlatOne<T>(chunk: seq<T>)
    ensures Flat([chunk]) == chunk
  {
    assert [chunk][1..] == [];
  }

  /** One more chunk on the left of a split. */
  lemma FlatSnoc<T>(chunks: seq<seq<T>>, i: nat)
    requires i < |chunks|
    ensures Flat(chunks[..i + 1]) == Flat(chunks[..i]) + chunks[i]
    ensures Before(chunks, i + 1) == Before(chunks, i) + |chunks[i]|
  {
    assert chunks[..i + 1] == chunks[..i] + [chunks[i]];
    FlatConcat(chunks[..i], [chunks[i]]);
    FlatOne(chunks[i]);
  }

  lemma FlatSplit<T>(chunks: seq<seq<T>>, i: nat)
    requires i <= |chunks|
    ensures Flat(chunks) == Flat(chunks[..i]) + Flat(chunks[i..])
    ensures |Flat(chunks)| == Before(chunks, i) + |Flat(chunks[i..])|
  {
    assert chunks == chunks[..i] + chunks[i..];
    FlatConcat(chunks[..i], chunks[i..]);
  }

  lemma FlatCons<T>(chunks: seq<seq<T>>, i: nat)
    requires i < |chunks|
    ensures Flat(chunks[i..]) == chunks[i] + Flat(chunks[i + 1..])
  {
    assert chunks[i..][1..] == chunks[i + 1..];
  }

  lemma {:induction false} BeforeGrows<T>(chunks: seq<seq<T>>, i: nat, j: nat)
    requires i <= j <= |chunks|
    ensures Before(chunks, i) <= Before(chunks, j) <= |Flat(chunks)|
    decreases j - i
  {
    FlatSplit(chunks, j);
    if i < j {
      FlatSnoc(chunks, j - 1);
      BeforeGrows(chunks, i, j - 1);
    }
  }

  /** The bytes of chunk `i` are where they should be in the flat sequence. */
  lemma ChunkInFlat<T>(chunks: seq<seq<T>>, i: nat, from: nat, to: nat)
    requires i < |chunks| && from <= to <= |chunks[i]|
    ensures Before(chunks, i) + |chunks[i]| <= |Flat(chunks)|
    ensures chunks[i][from..to] == Flat(chunks)[Before(chunks, i) + from..Before(chunks, i) + to]
  {
    FlatSplit(chunks, i);
    FlatCons(chunks, i);
    var before, rest := Flat(chunks[..i]), Flat(chunks[i + 1..]);
    Assoc(before, chunks[i], rest);
    assert (before + (chunks[i] + rest))[|before| + from..|before| + to] == chunks[i][from..to];
  }

  /** All empty chunks between two positions can be skipped. */
  lemma {:induction false} SkipEmpty<T>(chunks: seq<seq<T>>, i: nat, j: nat)
    requires i <= j <= |chunks| && forall k | i <= k < j :: chunks[k] == []
    ensures Before(chunks, i) == Before(chunks, j) && Flat(chunks[..i]) == Flat(chunks[..j])
    ensures Flat(chunks[i..]) == Flat(chunks[j..])
    decreases j - i
  {
    if i < j {
      FlatSnoc(chunks, i);
      FlatCons(chunks, i);
      SkipEmpty(chunks, i + 1, j);
      EmptyLeft(Flat(chunks[i + 1..]));
    }
  }

  lemma SliceJoins<T>(s: seq<T>, offset: nat, a: nat, b: nat)
    requires offset + a + b <= |s|
    ensures s[offset..offset + a] + s[offset + a..offset + a + b] == s[offset..offset + a + b]
  {
  }

  /** What one more chunk adds to a slice: from `start`, as much as is still wanted. */
  lemma SliceSnoc<T>(prefix: seq<T>, chunk: seq<T>, offset: nat, n: nat)
    requires offset < |prefix| + |chunk|
    ensures var read := |Slice(prefix, offset, n)|;
      var start := if |prefix| > offset then 0 else offset - |prefix|;
      && read <= n && start <= |chunk|
      && Slice(prefix + chunk, offset, n)
         == Slice(prefix, offset, n) + chunk[start..start + Min(n - read, |chunk| - start)]
  {
  }

  lemma SliceBeyond<T>(s: seq<T>, offset: nat, n: nat)
    ensures offset >= |s| ==> Slice(s, offset, n) == []
    ensures |Slice(s, offset, n)| <= n
  {
  }

  /** A full slice of a prefix is the slice of the whole. */
  lemma SliceFull<T>(prefix: seq<T>, rest: seq<T>, offset: nat, n: nat)
    requires |Slice(prefix, offset, n)| >= n
    ensures Slice(prefix + rest, offset, n) == Slice(prefix, offset, n)
  {
  }

  /** Nothing after a prefix of chunks that fills the slice matters. */
  lemma PrefixFills<T>(chunks: seq<seq<T>>, i: nat, prefix: seq<T>, offset: nat, n: nat)
    requires i <= |chunks| && prefix == Flat(chunks[..i]) && (|Slice(prefix, offset, n)| >= n || i == |chunks|)
    ensures Slice(Flat(chunks), offset, n) == Slice(prefix, offset, n)
  {
    FlatSplit(chunks, i);
    if i == |chunks| {
      assert chunks[..i] == chunks;
    } else {
      SliceFull(prefix, Flat(chunks[i..]), offset, n);
    }
  }

  // ---------- What editing one chunk does to the flat sequence ----------

  lemma DropInto<T>(before: seq<T>, chunk: seq<T>, rest: seq<T>, n: nat)
    requires n <= |chunk|
    ensures (before + (chunk + rest))[|before| + n..] == chunk[n..] + rest
    ensures (before + (chunk + rest))[..|before| + n] == before + chunk[..n]
  {
  }

  lemma Spliced<T>(before: seq<T>, chunk: seq<T>, rest: seq<T>, from: nat, bytes: seq<T>)
    requires from + |bytes| <= |chunk|
    ensures var all := before + (chunk + rest); var p := |before| + from;
      before + ((chunk[..from] + bytes + chunk[from + |bytes|..]) + rest) == all[..p] + bytes + all[p + |bytes|..]
  {
  }

  lemma Around<T>(chunks: seq<seq<T>>, i: nat)
    requires i < |chunks|
    ensures Flat(chunks) == Flat(chunks[..i]) + (chunks[i] + Flat(chunks[i + 1..]))
    ensures Before(chunks, i) + |chunks[i]| <= |Flat(chunks)|
  {
    FlatSplit(chunks, i);
    FlatCons(chunks, i);
  }

  /** Everything before byte `n` of chunk `i` has been dropped. */
  lemma DroppedChunks<T>(was: seq<seq<T>>, now: seq<seq<T>>, i: nat, n: nat)
    requires i < |was| == |now| && n <= |was[i]|
    requires forall k | 0 <= k < i :: now[k] == []
    requires now[i] == was[i][n..] && forall k | i < k < |was| :: now[k] == was[k]
    ensures Before(was, i) + n <= |Flat(was)| && Flat(now) == Flat(was)[Before(was, i) + n..]
  {
    Around(was, i);
    Around(now, i);
    assert now[i + 1..] == was[i + 1..];
    SkipEmpty(now, 0, i);
    EmptyLeft(was[i][n..] + Flat(was[i + 1..]));
    DropInto(Flat(was[..i]), was[i], Flat(was[i + 1..]), n);
  }

  /** Everything from byte `n` of chunk `i` has been cut off. */
  lemma LimitedChunks<T>(was: seq<seq<T>>, now: seq<seq<T>>, i: nat, n: nat)
    requires i < |was| && |now| == i + 1 && n <= |was[i]|
    requires now[..i] == was[..i] && now[i] == was[i][..n]
    ensures Before(was, i) + n <= |Flat(was)| && Flat(now) == Flat(was)[..Before(was, i) + n]
  {
    FlatSnoc(now, i);
    assert now[..i + 1] == now;
    Around(was, i);
    DropInto(Flat(was[..i]), was[i], Flat(was[i + 1..]), n);
  }

  /** Part of chunk `i` has been overwritten. */
  lemma UpdatedChunk<T>(was: seq<seq<T>>, now: seq<seq<T>>, i: nat, from: nat, bytes: seq<T>)
    requires i < |was| == |now| && from + |bytes| <= |was[i]|
    requires now[i] == was[i][..from] + bytes + was[i][from + |bytes|..]
    requires forall k | 0 <= k < |was| && k != i :: now[k] == was[k]
    ensures var p, n := Before(was, i) + from, |bytes|;
      p + n <= |Flat(was)| && Flat(now) == Flat(was)[..p] + bytes + Flat(was)[p + n..]
  {
    Around(was, i);
    Around(now, i);
    assert now[..i] == was[..i] && now[i + 1..] == was[i + 1..];
    Spliced(Flat(was[..i]), was[i], Flat(was[i + 1..]), from, bytes);
  }
}
