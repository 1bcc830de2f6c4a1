/** What the modes of the AES object come to, bit by bit and block by block. */
module AesMeaning {
  import opened FlatBytes
  import opened Positional
  import opened Ciphers
  import opened AesModes

  /** Counter mode, bit by bit: the sum without carry of the data and the stream. */
  lemma CounterModeBits(c: Cipher, k: Settings, rtb: bool, d: seq<Byte>, i: nat, bit: nat)
    requires IsBlockCipher(c) && Proper(k) && k.ctr && k.bits == 128 && k.ivValid && i < |d| && bit < 8
    ensures var e := Encrypted(c, k, rtb, d);
            |e| == |d| &&
            Digits(2, 8, Num(e[i]))[bit] == (Digits(2, 8, Num(d[i]))[bit] + Digits(2, 8, Num(c.stream(k.iv, i)))[bit]) % 2
  {
    XorIs(d[i], c.stream(k.iv, i), bit);
  }

  /** Chained mode, block by block: each is encrypted after the one before it, as encrypted, has been laid on it. */
  lemma ChainedModeBlocks(c: Cipher, k: Settings, rtb: bool, d: seq<Byte>, j: nat)
    requires IsBlockCipher(c) && Proper(k) && !k.ctr && k.ivValid && (j + 1) * BLOCK <= |d|
    ensures var e := Encrypted(c, k, rtb, d);
            |e| == |d| &&
            BlockAt(e, j) == c.enc(Masked(BlockAt(d, j), if j == 0 then k.iv else BlockAt(e, j - 1)))
  {
    ChainedFirst(c, k, rtb, d);
    var part := d[..FullLength(|d|)];
    ChainIs(c, k.iv, part, j);
    BlocksCarry(c, k.iv, part, Chain(c, k.iv, part), d, Encrypted(c, k, rtb, d), j);
  }

  lemma BlocksCarry(c: Cipher, iv: seq<Byte>, part: seq<Byte>, chained: seq<Byte>, d: seq<Byte>, e: seq<Byte>, j: nat)
    requires |iv| == BLOCK && part <= d && chained <= e && |part| == |chained| && (j + 1) * BLOCK <= |part|
    requires BlockAt(chained, j) == c.enc(Masked(BlockAt(part, j), if j == 0 then iv else BlockAt(chained, j - 1)))
    ensures BlockAt(e, j) == c.enc(Masked(BlockAt(d, j), if j == 0 then iv else BlockAt(e, j - 1)))
  {
    WithinPrefix(part, d, j);
    WithinPrefix(chained, e, j);
    if j > 0 {
      WithinPrefix(chained, e, j - 1);
    }
  }

  lemma ChainedFirst(c: Cipher, k: Settings, rtb: bool, d: seq<Byte>)
    requires IsBlockCipher(c) && Proper(k) && !k.ctr && k.ivValid
    ensures |Encrypted(c, k, rtb, d)| == |d| && Chain(c, k.iv, d[..FullLength(|d|)]) <= Encrypted(c, k, rtb, d)
  {
  }

  lemma WithinPrefix(a: seq<Byte>, b: seq<Byte>, j: nat)
    requires a <= b && (j + 1) * BLOCK <= |a|
    ensures BlockAt(a, j) == BlockAt(b, j)
  {
  }

  /** Without an initial value, block by block: each by itself. */
  lemma BlockModeBlocks(c: Cipher, k: Settings, rtb: bool, d: seq<Byte>, j: nat)
    requires IsBlockCipher(c) && Proper(k) && !k.ctr && !k.ivValid && (j + 1) * BLOCK <= |d|
    ensures var e := Encrypted(c, k, rtb, d); |e| == |d| && BlockAt(e, j) == c.enc(BlockAt(d, j))
  {
    EachBlockIs(c, d, j);
  }

  /** A key of 16 bytes is wrapped in 32. */
  lemma KeyDoubles(c: Cipher, k: Settings, key: seq<Byte>)
    requires IsBlockCipher(c) && Proper(k) && |key| == 16
    ensures |Encrypted(c, k, false, Pad(key, BLOCK))| == 32
  {
    UnpadIff(key, BLOCK);
    Doubled(|Pad(key, BLOCK)|);
    EachBlockUndone(c, Pad(key, BLOCK));
  }

  lemma Doubled(n: nat)
    requires n % 16 == 0 && 16 < n <= 32
    ensures n == 32
  {
  }
}
