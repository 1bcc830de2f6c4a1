module Ciphers {
  // What encrypting and decrypting compute (libs/crypto/aes.cc, libs/crypto/pkcs7.cc), over any block cipher.

  import opened Sequences
  import opened Positional
  import opened FlatBytes

  const BLOCK := 16

  /** The block cipher under one key, and its counter-mode key stream for an initial counter. */
  datatype Cipher = Cipher(
    enc: seq<Byte> -> seq<Byte>,
    dec: seq<Byte> -> seq<Byte>,
    stream: (seq<Byte>, nat) -> Byte)

  ghost predicate IsBlockCipher(c: Cipher) {
    && (forall b: seq<Byte> | |b| == BLOCK :: |c.enc(b)| == BLOCK)
    && (forall b: seq<Byte> | |b| == BLOCK :: |c.dec(b)| == BLOCK)
    && (forall b: seq<Byte> | |b| == BLOCK :: c.dec(c.enc(b)) == b)
  }

  /** Exclusive or of the low `k` bits of two numbers. */
  function XorBits(a: nat, b: nat, k: nat): (r: nat) {
    if k == 0 then 0 else 2 * XorBits(a / 2, b / 2, k - 1) + (if a % 2 == b % 2 then 0 else 1)
  }

  lemma {:induction false} XorBitsBelow(a: nat, b: nat, k: nat)
    ensures XorBits(a, b, k) < Power(2, k)
  {
    if k > 0 {
      XorBitsBelow(a / 2, b / 2, k - 1);
    }
  }

  lemma {:induction false} XorBitsTwice(a: nat, b: nat, k: nat)
    requires a < Power(2, k)
    ensures XorBits(XorBits(a, b, k), b, k) == a
  {
    if k > 0 {
      var x, bit := XorBits(a / 2, b / 2, k - 1), if a % 2 == b % 2 then 0 else 1;
      XorBitsTwice(a / 2, b / 2, k - 1);
      assert XorBits(a, b, k) == 2 * x + bit;
      assert (2 * x + bit) / 2 == x && (2 * x + bit) % 2 == bit;
    }
  }

  function Xor(a: Byte, b: Byte): Byte {
    EightTwos();
    XorBitsBelow(a.value, b.value, 8);
    Byte(XorBits(a.value, b.value, 8))
  }

  /** The first `|a|` bytes of the mask on `a`. */
  function Masked(a: seq<Byte>, mask: seq<Byte>): (r: seq<Byte>)
    requires |a| <= |mask|
    ensures |r| == |a|
  {
    seq(|a|, i requires 0 <= i < |a| => Xor(a[i], mask[i]))
  }

  lemma XorTwice(a: Byte, b: Byte)
    ensures Xor(Xor(a, b), b) == a
  {
    EightTwos();
    XorBitsTwice(a.value, b.value, 8);
  }

  lemma {:induction false} XorBitsAre(a: nat, b: nat, k: nat, i: nat)
    requires i < k
    ensures Digits(2, k, XorBits(a, b, k))[i] == (Digits(2, k, a)[i] + Digits(2, k, b)[i]) % 2
  {
    var x := XorBits(a / 2, b / 2, k - 1);
    assert XorBits(a, b, k) / 2 == x;
    if i < k - 1 {
      XorBitsAre(a / 2, b / 2, k - 1, i);
    }
  }

  /** Bit by bit, the exclusive or is the sum without carry. */
  lemma XorIs(a: Byte, b: Byte, i: nat)
    requires i < 8
    ensures Digits(2, 8, Num(Xor(a, b)))[i] == (Digits(2, 8, Num(a))[i] + Digits(2, 8, Num(b))[i]) % 2
  {
    XorBitsAre(a.value, b.value, 8, i);
  }

  lemma SameDigits(k: nat, a: nat, b: nat)
    requires a < Power(2, k) && b < Power(2, k) && forall i | 0 <= i < k :: Digits(2, k, a)[i] == Digits(2, k, b)[i]
    ensures a == b
  {
    NumberDigits(2, k, a);
    NumberDigits(2, k, b);
    assert Digits(2, k, a) == Digits(2, k, b);
  }

  lemma {:induction false} ZeroBits(k: nat, i: nat)
    requires i < k
    ensures Digits(2, k, 0)[i] == 0
  {
    if i < k - 1 {
      ZeroBits(k - 1, i);
    }
  }

  /** Zero changes nothing, and a byte takes itself away. */
  lemma XorZeroAndSelf(a: Byte)
    ensures Xor(a, Byte(0)) == a && Xor(a, a) == Byte(0)
  {
    forall i | 0 <= i < 8
      ensures Digits(2, 8, Num(Xor(a, Byte(0))))[i] == Digits(2, 8, Num(a))[i]
      ensures Digits(2, 8, Num(Xor(a, a)))[i] == Digits(2, 8, Num(Byte(0)))[i]
    {
      XorIs(a, Byte(0), i);
      XorIs(a, a, i);
      ZeroBits(8, i);
    }
    EightTwos();
    SameDigits(8, Num(Xor(a, Byte(0))), Num(a));
    SameDigits(8, Num(Xor(a, a)), 0);
  }

  /** A mask of zeros leaves the data as they are. */
  lemma MaskedByZeros(a: seq<Byte>, mask: seq<Byte>)
    requires |a| <= |mask| && forall m <- mask :: m == Byte(0)
    ensures Masked(a, mask) == a
  {
    forall i | 0 <= i < |a| ensures Masked(a, mask)[i] == a[i] {
      XorZeroAndSelf(a[i]);
      assert mask[i] in mask;
    }
  }

  lemma MaskedTwice(a: seq<Byte>, mask: seq<Byte>)
    requires |a| <= |mask|
    ensures Masked(Masked(a, mask), mask) == a
  {
    forall i | 0 <= i < |a| ensures Masked(Masked(a, mask), mask)[i] == a[i] {
      XorTwice(a[i], mask[i]);
    }
  }

  // ---------- Whole blocks ----------

  /** The part made of whole blocks. */
  function FullLength(n: nat): (r: nat)
    ensures r <= n < r + BLOCK && r % BLOCK == 0
  {
    BLOCK * (n / BLOCK)
  }

  /** One function over every whole block; a short rest is left alone. */
  function EachBlock(f: seq<Byte> -> seq<Byte>, d: seq<Byte>): seq<Byte> {
    if |d| < BLOCK then d else f(d[..BLOCK]) + EachBlock(f, d[BLOCK..])
  }

  /** Chained encryption (section 6.2 of NIST SP 800-38A); a short rest is left alone. */
  ghost function Chain(c: Cipher, iv: seq<Byte>, d: seq<Byte>): (r: seq<Byte>)
    requires IsBlockCipher(c) && |iv| == BLOCK
    ensures |r| == |d|
    decreases |d|
  {
    if |d| < BLOCK then d
    else
      var b := c.enc(Masked(d[..BLOCK], iv));
      b + Chain(c, b, d[BLOCK..])
  }

  /** The block with a number. */
  function BlockAt(d: seq<Byte>, j: nat): (r: seq<Byte>)
    requires (j + 1) * BLOCK <= |d|
    ensures |r| == BLOCK
  {
    d[j * BLOCK..(j + 1) * BLOCK]
  }

  /** Each block is encrypted after the one before it, as encrypted, has been laid on it; the first after the
      initialisation vector has. */
  lemma {:induction false} ChainIs(c: Cipher, iv: seq<Byte>, d: seq<Byte>, j: nat)
    requires IsBlockCipher(c) && |iv| == BLOCK && (j + 1) * BLOCK <= |d|
    ensures var e := Chain(c, iv, d);
            BlockAt(e, j) == c.enc(Masked(BlockAt(d, j), if j == 0 then iv else BlockAt(e, j - 1)))
    decreases j
  {
    ChainUnfolds(c, iv, d);
    if j > 0 {
      var e, b := Chain(c, iv, d), c.enc(Masked(d[..BLOCK], iv));
      ChainIs(c, b, d[BLOCK..], j - 1);
      LaterBlock(d, j);
      LaterBlock(e, j);
      if j > 1 {
        LaterBlock(e, j - 1);
      }
    }
  }

  lemma ChainUnfolds(c: Cipher, iv: seq<Byte>, d: seq<Byte>)
    requires IsBlockCipher(c) && |iv| == BLOCK && BLOCK <= |d|
    ensures var e, b := Chain(c, iv, d), c.enc(Masked(d[..BLOCK], iv));
            BlockAt(e, 0) == b && e[BLOCK..] == Chain(c, b, d[BLOCK..]) && BlockAt(d, 0) == d[..BLOCK]
  {
  }

  lemma LaterBlock(d: seq<Byte>, j: nat)
    requires 0 < j && (j + 1) * BLOCK <= |d|
    ensures BlockAt(d[BLOCK..], j - 1) == BlockAt(d, j)
  {
  }

  /** With an initialisation vector of zeros the first block is that of the data, encrypted. */
  lemma ZeroIvFirst(c: Cipher, iv: seq<Byte>, d: seq<Byte>)
    requires IsBlockCipher(c) && |iv| == BLOCK <= |d| && forall b <- iv :: b == Byte(0)
    ensures Chain(c, iv, d)[..BLOCK] == c.enc(d[..BLOCK])
  {
    ChainIs(c, iv, d, 0);
    MaskedByZeros(d[..BLOCK], iv);
  }

  ghost function Unchain(c: Cipher, iv: seq<Byte>, d: seq<Byte>): (r: seq<Byte>)
    requires IsBlockCipher(c) && |iv| == BLOCK
    ensures |r| == |d|
    decreases |d|
  {
    if |d| < BLOCK then d else Masked(c.dec(d[..BLOCK]), iv) + Unchain(c, d[..BLOCK], d[BLOCK..])
  }

  /** The chaining value after some encrypted data: its last whole block, if it has one. */
  function NextIv(iv: seq<Byte>, encrypted: seq<Byte>): (r: seq<Byte>)
    requires |iv| == BLOCK
    ensures |r| == BLOCK
    decreases |encrypted|
  {
    if |encrypted| < BLOCK then iv else NextIv(encrypted[..BLOCK], encrypted[BLOCK..])
  }

  lemma {:induction false} UnchainChain(c: Cipher, iv: seq<Byte>, d: seq<Byte>)
    requires IsBlockCipher(c) && |iv| == BLOCK
    ensures Unchain(c, iv, Chain(c, iv, d)) == d
    decreases |d|
  {
    if |d| >= BLOCK {
      var m := Masked(d[..BLOCK], iv);
      var b := c.enc(m);
      UnchainChain(c, b, d[BLOCK..]);
      MaskedTwice(d[..BLOCK], iv);
      DropLeft(b, Chain(c, b, d[BLOCK..]));
      assert Chain(c, iv, d)[..BLOCK] == b;
      assert c.dec(b) == m;
    }
  }

  /** Chaining goes on from one piece to the next. */
  lemma {:induction false} ChainSplit(c: Cipher, iv: seq<Byte>, a: seq<Byte>, b: seq<Byte>)
    requires IsBlockCipher(c) && |iv| == BLOCK && |a| % BLOCK == 0
    ensures Chain(c, iv, a + b) == Chain(c, iv, a) + Chain(c, NextIv(iv, Chain(c, iv, a)), b)
    decreases |a|
  {
    if |a| == 0 {
      assert a + b == b;
      EmptyLeft(Chain(c, iv, b));
    } else {
      var first := c.enc(Masked(a[..BLOCK], iv));
      var rest := Chain(c, first, a[BLOCK..]);
      assert (a + b)[..BLOCK] == a[..BLOCK] && (a + b)[BLOCK..] == a[BLOCK..] + b;
      ChainSplit(c, first, a[BLOCK..], b);
      FirstLeft(c, iv, a);
      Assoc(first, rest, Chain(c, NextIv(first, rest), b));
    }
  }

  /** The chaining value after some data is that after its first block and the others. */
  lemma FirstLeft(c: Cipher, iv: seq<Byte>, a: seq<Byte>)
    requires IsBlockCipher(c) && |iv| == BLOCK && |a| >= BLOCK
    ensures var first := c.enc(Masked(a[..BLOCK], iv));
            NextIv(iv, Chain(c, iv, a)) == NextIv(first, Chain(c, first, a[BLOCK..]))
  {
    var first := c.enc(Masked(a[..BLOCK], iv));
    DropLeft(first, Chain(c, first, a[BLOCK..]));
    assert Chain(c, iv, a)[..BLOCK] == first;
  }

  lemma {:induction false} UnchainSplit(c: Cipher, iv: seq<Byte>, a: seq<Byte>, b: seq<Byte>)
    requires IsBlockCipher(c) && |iv| == BLOCK && |a| % BLOCK == 0
    ensures Unchain(c, iv, a + b) == Unchain(c, iv, a) + Unchain(c, NextIv(iv, a), b)
    decreases |a|
  {
    if |a| == 0 {
      assert a + b == b;
      EmptyLeft(Unchain(c, iv, b));
    } else {
      assert (a + b)[..BLOCK] == a[..BLOCK] && (a + b)[BLOCK..] == a[BLOCK..] + b;
      UnchainSplit(c, a[..BLOCK], a[BLOCK..], b);
      Assoc(Masked(c.dec(a[..BLOCK]), iv), Unchain(c, a[..BLOCK], a[BLOCK..]), Unchain(c, NextIv(iv, a), b));
    }
  }

  lemma {:induction false} NextIvSplit(iv: seq<Byte>, a: seq<Byte>, b: seq<Byte>)
    requires |iv| == BLOCK && |a| % BLOCK == 0
    ensures NextIv(iv, a + b) == NextIv(NextIv(iv, a), b)
    decreases |a|
  {
    if |a| == 0 {
      assert a + b == b;
    } else {
      assert (a + b)[..BLOCK] == a[..BLOCK] && (a + b)[BLOCK..] == a[BLOCK..] + b;
      NextIvSplit(a[..BLOCK], a[BLOCK..], b);
    }
  }

  /** The next chaining value is the last whole block. */
  lemma {:induction false} NextIvIsLastBlock(iv: seq<Byte>, a: seq<Byte>)
    requires |iv| == BLOCK && |a| >= BLOCK && |a| % BLOCK == 0
    ensures NextIv(iv, a) == a[|a| - BLOCK..]
  {
    var n := |a| - BLOCK;
    var last := a[n..];
    assert a == a[..n] + last;
    NextIvSplit(iv, a[..n], last);
    assert last[..BLOCK] == last && last[BLOCK..] == [];
  }

  /** Block by block, each by itself. */
  lemma {:induction false} EachBlockIs(c: Cipher, d: seq<Byte>, j: nat)
    requires IsBlockCipher(c) && (j + 1) * BLOCK <= |d|
    ensures |EachBlock(c.enc, d)| == |d| && BlockAt(EachBlock(c.enc, d), j) == c.enc(BlockAt(d, j))
    decreases j
  {
    EachBlockUndone(c, d);
    EachBlockUnfolds(c, d);
    if j > 0 {
      EachBlockIs(c, d[BLOCK..], j - 1);
      LaterBlock(d, j);
      LaterBlock(EachBlock(c.enc, d), j);
    }
  }

  lemma EachBlockUnfolds(c: Cipher, d: seq<Byte>)
    requires IsBlockCipher(c) && BLOCK <= |d|
    ensures var e := EachBlock(c.enc, d);
            |e| >= BLOCK && BlockAt(e, 0) == c.enc(BlockAt(d, 0)) && e[BLOCK..] == EachBlock(c.enc, d[BLOCK..])
  {
    assert BlockAt(d, 0) == d[..BLOCK];
    DropLeft(c.enc(d[..BLOCK]), EachBlock(c.enc, d[BLOCK..]));
  }

  lemma {:induction false} EachBlockUndone(c: Cipher, d: seq<Byte>)
    requires IsBlockCipher(c)
    ensures EachBlock(c.dec, EachBlock(c.enc, d)) == d && |EachBlock(c.enc, d)| == |d|
    decreases |d|
  {
    if |d| >= BLOCK {
      var b := c.enc(d[..BLOCK]);
      EachBlockUndone(c, d[BLOCK..]);
      DropLeft(b, EachBlock(c.enc, d[BLOCK..]));
      assert (b + EachBlock(c.enc, d[BLOCK..]))[..BLOCK] == b;
    }
  }

  lemma {:induction false} EachBlockSplit(f: seq<Byte> -> seq<Byte>, a: seq<Byte>, b: seq<Byte>)
    requires |a| % BLOCK == 0
    ensures EachBlock(f, a + b) == EachBlock(f, a) + EachBlock(f, b)
    decreases |a|
  {
    if |a| == 0 {
      assert a + b == b;
      EmptyLeft(EachBlock(f, b));
    } else {
      assert (a + b)[..BLOCK] == a[..BLOCK] && (a + b)[BLOCK..] == a[BLOCK..] + b;
      EachBlockSplit(f, a[BLOCK..], b);
      Assoc(f(a[..BLOCK]), EachBlock(f, a[BLOCK..]), EachBlock(f, b));
    }
  }

  // ---------- Counter mode ----------

  /** Bytes at some distance into the stream, masked by it. */
  function Streamed(c: Cipher, iv: seq<Byte>, at: nat, d: seq<Byte>): (r: seq<Byte>)
    ensures |r| == |d|
  {
    seq(|d|, i requires 0 <= i < |d| => Xor(d[i], c.stream(iv, at + i)))
  }

  /** A stream of zeros leaves the data as they are. */
  lemma ZeroStreamLeaves(c: Cipher, iv: seq<Byte>, at: nat, d: seq<Byte>)
    requires forall i | at <= i < at + |d| :: c.stream(iv, i) == Byte(0)
    ensures Streamed(c, iv, at, d) == d
  {
    forall i | 0 <= i < |d| ensures Streamed(c, iv, at, d)[i] == d[i] {
      XorZeroAndSelf(d[i]);
    }
  }

  /** Counter mode undoes itself. */
  lemma StreamedTwice(c: Cipher, iv: seq<Byte>, at: nat, d: seq<Byte>)
    ensures Streamed(c, iv, at, Streamed(c, iv, at, d)) == d
  {
    forall i | 0 <= i < |d| ensures Streamed(c, iv, at, Streamed(c, iv, at, d))[i] == d[i] {
      XorTwice(d[i], c.stream(iv, at + i));
    }
  }

  /** One pass over the chunks of a message, the stream going on from chunk to chunk. */
  function StreamedChunks(c: Cipher, iv: seq<Byte>, at: nat, chunks: seq<seq<Byte>>): seq<seq<Byte>>
    decreases |chunks|
  {
    if chunks == [] then []
    else [Streamed(c, iv, at, chunks[0])] + StreamedChunks(c, iv, at + |chunks[0]|, chunks[1..])
  }

  /** However a message is cut into chunks, the same bytes come out. */
  lemma {:induction false} ChunksStreamAsOne(c: Cipher, iv: seq<Byte>, at: nat, chunks: seq<seq<Byte>>)
    ensures Flat(StreamedChunks(c, iv, at, chunks)) == Streamed(c, iv, at, Flat(chunks))
    decreases |chunks|
  {
    if chunks != [] {
      var first, rest := Streamed(c, iv, at, chunks[0]), StreamedChunks(c, iv, at + |chunks[0]|, chunks[1..]);
      ChunksStreamAsOne(c, iv, at + |chunks[0]|, chunks[1..]);
      DropLeft([first], rest);
      assert StreamedChunks(c, iv, at, chunks)[0] == first;
    }
  }

  // ---------- The residual termination block ----------

  /** What masks the bytes after the last whole block: the last encrypted block encrypted again with the
      chaining value the message started from, or an encrypted random value if there is no whole block. */
  ghost function TailMask(c: Cipher, iv: seq<Byte>, short: seq<Byte>, encrypted: seq<Byte>): (r: seq<Byte>)
    requires IsBlockCipher(c) && |iv| == BLOCK && |short| == BLOCK
    ensures |r| == BLOCK
  {
    if |encrypted| < BLOCK then c.enc(short) else c.enc(Masked(NextIv(iv, encrypted), iv))
  }

  /** A message encrypted: whole blocks chained, and the rest masked if asked for. */
  ghost function Sealed(c: Cipher, iv: seq<Byte>, short: seq<Byte>, rtb: bool, d: seq<Byte>): (r: seq<Byte>)
    requires IsBlockCipher(c) && |iv| == BLOCK && |short| == BLOCK
    ensures |r| == |d|
  {
    var n := FullLength(|d|);
    var e := Chain(c, iv, d[..n]);
    e + if rtb then Masked(d[n..], TailMask(c, iv, short, e)) else d[n..]
  }

  ghost function Unsealed(c: Cipher, iv: seq<Byte>, short: seq<Byte>, rtb: bool, d: seq<Byte>): (r: seq<Byte>)
    requires IsBlockCipher(c) && |iv| == BLOCK && |short| == BLOCK
    ensures |r| == |d|
  {
    var n := FullLength(|d|);
    Unchain(c, iv, d[..n]) + if rtb then Masked(d[n..], TailMask(c, iv, short, d[..n])) else d[n..]
  }

  /** The residual termination block: the bytes after the last whole block are masked by that block, as encrypted, after
      the initialisation vector has been laid on it and it has been encrypted again; a message of less than a block, by
      an encrypted random value. */
  lemma ResidueIs(c: Cipher, iv: seq<Byte>, short: seq<Byte>, d: seq<Byte>, n: nat, k: nat)
    requires IsBlockCipher(c) && |iv| == BLOCK && |short| == BLOCK
    requires n % BLOCK == 0 && n + k < |d| < n + BLOCK
    ensures var e := Sealed(c, iv, short, true, d);
            e[n + k] == Xor(d[n + k], (if n == 0 then c.enc(short) else c.enc(Masked(e[n - BLOCK..n], iv)))[k])
  {
    FullIs(|d|, n);
    var e := Chain(c, iv, d[..n]);
    var mask := TailMask(c, iv, short, e);
    JoinedParts(e, Masked(d[n..], mask), k);
    if n > 0 {
      NextIvIsLastBlock(iv, e);
    }
  }

  /** If it is not asked for, those bytes stay clear. */
  lemma ResidueClear(c: Cipher, iv: seq<Byte>, short: seq<Byte>, d: seq<Byte>, n: nat, k: nat)
    requires IsBlockCipher(c) && |iv| == BLOCK && |short| == BLOCK
    requires n % BLOCK == 0 && n + k < |d| < n + BLOCK
    ensures Sealed(c, iv, short, false, d)[n + k] == d[n + k]
  {
    FullIs(|d|, n);
    JoinedParts(Chain(c, iv, d[..n]), d[n..], k);
  }

  lemma FullIs(length: nat, n: nat)
    requires n % BLOCK == 0 && n <= length < n + BLOCK
    ensures FullLength(length) == n && (n == 0 || n >= BLOCK)
  {
  }

  lemma JoinedParts(e: seq<Byte>, rest: seq<Byte>, k: nat)
    requires k < |rest|
    ensures (e + rest)[|e| + k] == rest[k]
    ensures |e| >= BLOCK ==> (e + rest)[|e| - BLOCK..|e|] == e[|e| - BLOCK..]
  {
  }

  /** The chaining value left in the object, which both sides compute from the encrypted message. */
  function IvAfter(iv: seq<Byte>, encrypted: seq<Byte>): (r: seq<Byte>)
    requires |iv| == BLOCK
    ensures |r| == BLOCK
  {
    NextIv(iv, encrypted[..FullLength(|encrypted|)])
  }

  /** Decrypting undoes encrypting for every length: whole blocks, a rest, and less than a block. */
  lemma UnsealSealed(c: Cipher, iv: seq<Byte>, short: seq<Byte>, rtb: bool, d: seq<Byte>)
    requires IsBlockCipher(c) && |iv| == BLOCK && |short| == BLOCK
    ensures Unsealed(c, iv, short, rtb, Sealed(c, iv, short, rtb, d)) == d
  {
    var n := FullLength(|d|);
    var e := Chain(c, iv, d[..n]);
    var tail := if rtb then Masked(d[n..], TailMask(c, iv, short, e)) else d[n..];
    UnchainChain(c, iv, d[..n]);
    DropLeft(e, tail);
    assert (e + tail)[..n] == e;
    if rtb {
      MaskedTwice(d[n..], TailMask(c, iv, short, e));
    }
    assert d == d[..n] + d[n..];
  }

  lemma FullParts(a: seq<Byte>, b: seq<Byte>)
    requires |a| % BLOCK == 0
    ensures FullLength(|a|) == |a| && FullLength(|a + b|) == |a| + FullLength(|b|)
    ensures a[..|a|] == a && (a + b)[..FullLength(|a + b|)] == a + b[..FullLength(|b|)]
    ensures (a + b)[FullLength(|a + b|)..] == b[FullLength(|b|)..]
  {
  }

  /** A message cut after whole blocks may be encrypted in two calls: the object carries the chaining on. */
  lemma SealedInPieces(c: Cipher, iv: seq<Byte>, short: seq<Byte>, a: seq<Byte>, b: seq<Byte>)
    requires IsBlockCipher(c) && |iv| == BLOCK && |short| == BLOCK && |a| % BLOCK == 0
    ensures var first := Sealed(c, iv, short, false, a);
            Sealed(c, iv, short, false, a + b) == first + Sealed(c, IvAfter(iv, first), short, false, b)
  {
    FullParts(a, b);
    var first := Chain(c, iv, a);
    assert first + [] == first && first[..|a|] == first && Sealed(c, iv, short, false, a) == first;
    var full := b[..FullLength(|b|)];
    ChainSplit(c, iv, a, full);
    Assoc(first, Chain(c, NextIv(iv, first), full), b[FullLength(|b|)..]);
  }

  /** And decrypted in two calls. */
  lemma UnsealedInPieces(c: Cipher, iv: seq<Byte>, short: seq<Byte>, a: seq<Byte>, b: seq<Byte>)
    requires IsBlockCipher(c) && |iv| == BLOCK && |short| == BLOCK && |a| % BLOCK == 0
    ensures Unsealed(c, iv, short, false, a + b) ==
            Unsealed(c, iv, short, false, a) + Unsealed(c, IvAfter(iv, a), short, false, b)
  {
    FullParts(a, b);
    var first := Unchain(c, iv, a);
    assert first + [] == first && Unsealed(c, iv, short, false, a) == first;
    var full := b[..FullLength(|b|)];
    UnchainSplit(c, iv, a, full);
    Assoc(first, Unchain(c, NextIv(iv, a), full), b[FullLength(|b|)..]);
  }

  /** The messages of a conversation, one after another from one chaining value. */
  ghost function SealAll(c: Cipher, iv: seq<Byte>, short: seq<Byte>, rtb: bool, ms: seq<seq<Byte>>): seq<seq<Byte>>
    requires IsBlockCipher(c) && |iv| == BLOCK && |short| == BLOCK
    decreases |ms|
  {
    if ms == [] then []
    else
      var e := Sealed(c, iv, short, rtb, ms[0]);
      [e] + SealAll(c, IvAfter(iv, e), short, rtb, ms[1..])
  }

  ghost function UnsealAll(c: Cipher, iv: seq<Byte>, short: seq<Byte>, rtb: bool, es: seq<seq<Byte>>): seq<seq<Byte>>
    requires IsBlockCipher(c) && |iv| == BLOCK && |short| == BLOCK
    decreases |es|
  {
    if es == [] then []
    else [Unsealed(c, iv, short, rtb, es[0])] + UnsealAll(c, IvAfter(iv, es[0]), short, rtb, es[1..])
  }

  /** Two objects that start with the same chaining value stay in step over every list of messages. */
  lemma {:induction false} ConversationUnsealed(c: Cipher, iv: seq<Byte>, short: seq<Byte>, rtb: bool, ms: seq<seq<Byte>>)
    requires IsBlockCipher(c) && |iv| == BLOCK && |short| == BLOCK
    ensures UnsealAll(c, iv, short, rtb, SealAll(c, iv, short, rtb, ms)) == ms
    decreases |ms|
  {
    if ms != [] {
      var e := Sealed(c, iv, short, rtb, ms[0]);
      var es := SealAll(c, IvAfter(iv, e), short, rtb, ms[1..]);
      UnsealSealed(c, iv, short, rtb, ms[0]);
      ConversationUnsealed(c, IvAfter(iv, e), short, rtb, ms[1..]);
      DropLeft([e], es);
      assert ms == [ms[0]] + ms[1..];
    }
  }

  // ---------- Padding (section 6.3 of RFC 5652) ----------

  /** How many bytes padding to a multiple adds: always at least one. */
  function Extra(length: nat, multiple: nat): (r: nat)
    requires multiple > 0
  {
    (length + multiple) / multiple * multiple - length
  }

  function Pad(d: seq<Byte>, multiple: nat): seq<Byte>
    requires multiple > 0
  {
    var extra := Extra(|d|, multiple);
    d + Repeated(AsByte(extra), extra)
  }

  /** The length before padding, as read from the last byte; if that is more than there is, the whole. */
  function OriginalLength(d: seq<Byte>): (r: nat)
    ensures r <= |d|
  {
    if d == [] then 0
    else
      var pad := Num(d[|d| - 1]);
      if pad > |d| then |d| else |d| - pad
  }

  lemma ExtraIs(length: nat, multiple: nat)
    requires multiple > 0
    ensures Extra(length, multiple) == multiple - length % multiple && 0 < Extra(length, multiple) <= multiple
    ensures (length + Extra(length, multiple)) % multiple == 0
  {
    var q, r := length / multiple, length % multiple;
    assert length == q * multiple + r;
    assert (length + multiple) / multiple == q + 1 by {
      assert length + multiple == (q + 1) * multiple + r;
      DivideUnique(length + multiple, multiple, q + 1, r);
    }
    assert (q + 1) * multiple == q * multiple + multiple;
    DivideUnique((q + 1) * multiple, multiple, q + 1, 0);
  }

  /** Padding keeps the data in front and fills up to a multiple with the number of bytes added; the original length is
      read back exactly when that number fits in one byte. */
  lemma UnpadIff(d: seq<Byte>, multiple: nat)
    requires multiple > 0
    ensures |Pad(d, multiple)| % multiple == 0 && |d| < |Pad(d, multiple)| <= |d| + multiple
    ensures Pad(d, multiple)[..|d|] == d
    ensures forall i | |d| <= i < |Pad(d, multiple)| :: Pad(d, multiple)[i] == AsByte(|Pad(d, multiple)| - |d|)
    ensures OriginalLength(Pad(d, multiple)) == |d| <==> multiple - |d| % multiple <= 255
  {
    ExtraIs(|d|, multiple);
    var x := Extra(|d|, multiple);
    var p := Pad(d, multiple);
    assert p[|p| - 1] == AsByte(x);
  }
}
