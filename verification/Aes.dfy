/** The AES object (libs/crypto/aes.cc): encrypting and decrypting bytes in place. */
module AesModes {
  import opened Sequences
  import opened FlatBytes
  import opened Ciphers

  /** The values the object holds beside its key. */
  datatype Settings = Settings(bits: nat, iv: seq<Byte>, ivValid: bool, short: seq<Byte>, ctr: bool)

  predicate Proper(k: Settings) {
    |k.iv| == BLOCK && |k.short| == BLOCK
  }

  /** Counter mode needs a 128-bit key and an initial counter. */
  predicate Ready(k: Settings) {
    k.ctr ==> k.bits == 128 && k.ivValid
  }

  ghost function Encrypted(c: Cipher, k: Settings, rtb: bool, d: seq<Byte>): (r: seq<Byte>)
    requires IsBlockCipher(c) && Proper(k)
  {
    if k.ctr then (if Ready(k) then Streamed(c, k.iv, 0, d) else d)
    else if k.ivValid then Sealed(c, k.iv, k.short, rtb, d)
    else EachBlock(c.enc, d)
  }

  ghost function Decrypted(c: Cipher, k: Settings, rtb: bool, d: seq<Byte>): (r: seq<Byte>)
    requires IsBlockCipher(c) && Proper(k)
  {
    if k.ctr then (if Ready(k) then Streamed(c, k.iv, 0, d) else d)
    else if k.ivValid then Unsealed(c, k.iv, k.short, rtb, d)
    else EachBlock(c.dec, d)
  }

  /** The object's values after a message: in chained mode its chaining value has moved on. */
  function After(k: Settings, encrypted: seq<Byte>): Settings
    requires |k.iv| == BLOCK
  {
    if !k.ctr && k.ivValid then k.(iv := IvAfter(k.iv, encrypted)) else k
  }

  /** In every mode, with or without residual termination block, for data of every length. */
  lemma DecryptedEncrypted(c: Cipher, k: Settings, rtb: bool, d: seq<Byte>)
    requires IsBlockCipher(c) && Proper(k)
    ensures Decrypted(c, k, rtb, Encrypted(c, k, rtb, d)) == d
  {
    if k.ctr {
      StreamedTwice(c, k.iv, 0, d);
    } else if k.ivValid {
      UnsealSealed(c, k.iv, k.short, rtb, d);
    } else {
      EachBlockUndone(c, d);
    }
  }

  /** Without an initial value the bytes after the last whole block stay as they are, whatever is asked. */
  lemma RestStaysClear(c: Cipher, k: Settings, rtb: bool, d: seq<Byte>)
    requires IsBlockCipher(c) && Proper(k) && !k.ctr && !k.ivValid
    ensures var n := FullLength(|d|);
            |EachBlock(c.enc, d[..n])| == n && Encrypted(c, k, rtb, d) == EachBlock(c.enc, d[..n]) + d[n..]
  {
    var n := FullLength(|d|);
    assert d == d[..n] + d[n..];
    EachBlockSplit(c.enc, d[..n], d[n..]);
    EachBlockUndone(c, d[..n]);
  }

  // ---------- In place ----------

  /** The first `n` bytes of an array replaced. */
  ghost predicate Rewritten(was: seq<Byte>, now: seq<Byte>, n: nat, to: seq<Byte>) {
    n <= |was| == |now| && now[..n] == to && now[n..] == was[n..]
  }

  method PutBlock(data: array<Byte>, at: nat, b: seq<Byte>)
    requires |b| == BLOCK && at + BLOCK <= data.Length
    modifies data
    ensures data[..] == old(data[..at]) + b + old(data[at + BLOCK..])
  {
    forall k | 0 <= k < BLOCK {
      data[at + k] := b[k];
    }
  }

  lemma Room(left: nat)
    requires left > 0 && left % BLOCK == 0
    ensures left >= BLOCK && (left - BLOCK) % BLOCK == 0
  {
  }

  lemma NextBlock(s: seq<Byte>, i: nat, n: nat)
    requires i + BLOCK <= n <= |s|
    ensures s[i..n][..BLOCK] == s[i..i + BLOCK] && s[i..n][BLOCK..] == s[i + BLOCK..n]
  {
    SliceOfSlice(s, i, n, 0, BLOCK);
    SliceOfSlice(s, i, n, BLOCK, n - i);
  }

  lemma BlockPut(was: seq<Byte>, i: nat, b: seq<Byte>, now: seq<Byte>)
    requires i + BLOCK <= |was| && |b| == BLOCK && now == was[..i] + b + was[i + BLOCK..]
    ensures |now| == |was| && now[..i + BLOCK] == was[..i] + b && now[i + BLOCK..] == was[i + BLOCK..]
  {
    DropLeft(was[..i] + b, was[i + BLOCK..]);
  }

  /** Blocks done up to `i` of `n`: what is done and what is still to do make the whole. */
  ghost predicate EachSoFar(f: seq<Byte> -> seq<Byte>, was: seq<Byte>, n: nat, s: seq<Byte>, i: nat) {
    && i <= n <= |was| == |s| && (n - i) % BLOCK == 0 && s[i..] == was[i..]
    && s[..i] + EachBlock(f, was[i..n]) == EachBlock(f, was[..n])
  }

  lemma EachStep(f: seq<Byte> -> seq<Byte>, was: seq<Byte>, n: nat, s: seq<Byte>, i: nat, now: seq<Byte>)
    requires EachSoFar(f, was, n, s, i) && i + BLOCK <= n && (n - (i + BLOCK)) % BLOCK == 0 && |f(was[i..i + BLOCK])| == BLOCK
    requires now == s[..i] + f(was[i..i + BLOCK]) + s[i + BLOCK..]
    ensures EachSoFar(f, was, n, now, i + BLOCK)
  {
    var b := f(was[i..i + BLOCK]);
    BlockPut(s, i, b, now);
    NextBlock(was, i, n);
    Assoc(s[..i], b, EachBlock(f, was[i + BLOCK..n]));
    assert s[i..][BLOCK..] == was[i..][BLOCK..];
  }

  /** Each of the first blocks through a function. */
  method EachInPlace(f: seq<Byte> -> seq<Byte>, data: array<Byte>, n: nat)
    requires n <= data.Length && n % BLOCK == 0 && forall b: seq<Byte> | |b| == BLOCK :: |f(b)| == BLOCK
    modifies data
    ensures Rewritten(old(data[..]), data[..], n, EachBlock(f, old(data[..n])))
  {
    ghost var was := data[..];
    var i := 0;
    assert was[0..n] == was[..n] == data[..n];
    EmptyLeft(EachBlock(f, was[..n]));
    while i < n
      invariant EachSoFar(f, was, n, data[..], i)
    {
      Room(n - i);
      ghost var s := data[..];
      assert data[i..i + BLOCK] == s[i..][..BLOCK] == was[i..][..BLOCK] == was[i..i + BLOCK];
      PutBlock(data, i, f(data[i..i + BLOCK]));
      EachStep(f, was, n, s, i, data[..]);
      i := i + BLOCK;
    }
    assert data[..][..n] + [] == data[..][..n];
  }

  ghost predicate ChainSoFar(c: Cipher, iv: seq<Byte>, was: seq<Byte>, n: nat, s: seq<Byte>, i: nat, next: seq<Byte>)
    requires IsBlockCipher(c) && |iv| == BLOCK
  {
    && i <= n <= |was| == |s| && (n - i) % BLOCK == 0 && |next| == BLOCK && s[i..] == was[i..]
    && s[..i] + Chain(c, next, was[i..n]) == Chain(c, iv, was[..n])
    && NextIv(next, Chain(c, next, was[i..n])) == NextIv(iv, Chain(c, iv, was[..n]))
  }

  lemma ChainBlock(c: Cipher, iv: seq<Byte>, d: seq<Byte>, b: seq<Byte>)
    requires IsBlockCipher(c) && |iv| == BLOCK && |d| >= BLOCK && b == c.enc(Masked(d[..BLOCK], iv))
    ensures Chain(c, iv, d) == b + Chain(c, b, d[BLOCK..])
    ensures NextIv(iv, Chain(c, iv, d)) == NextIv(b, Chain(c, b, d[BLOCK..]))
  {
    DropLeft(b, Chain(c, b, d[BLOCK..]));
    assert (b + Chain(c, b, d[BLOCK..]))[..BLOCK] == b;
  }

  lemma ChainStep(c: Cipher, iv: seq<Byte>, was: seq<Byte>, n: nat, s: seq<Byte>, i: nat, next: seq<Byte>, b: seq<Byte>, now: seq<Byte>)
    requires IsBlockCipher(c) && |iv| == BLOCK && ChainSoFar(c, iv, was, n, s, i, next) && i + BLOCK <= n && (n - (i + BLOCK)) % BLOCK == 0
    requires b == c.enc(Masked(was[i..i + BLOCK], next)) && now == s[..i] + b + s[i + BLOCK..]
    ensures ChainSoFar(c, iv, was, n, now, i + BLOCK, b)
  {
    BlockPut(s, i, b, now);
    NextBlock(was, i, n);
    ChainBlock(c, next, was[i..n], b);
    Assoc(s[..i], b, Chain(c, b, was[i + BLOCK..n]));
    assert s[i..][BLOCK..] == was[i..][BLOCK..];
  }

  lemma ChainStart(c: Cipher, iv: seq<Byte>, was: seq<Byte>, n: nat)
    requires IsBlockCipher(c) && |iv| == BLOCK && n <= |was| && n % BLOCK == 0
    ensures ChainSoFar(c, iv, was, n, was, 0, iv)
  {
    assert was[0..n] == was[..n];
    EmptyLeft(Chain(c, iv, was[..n]));
  }

  lemma ChainEnd(c: Cipher, iv: seq<Byte>, was: seq<Byte>, n: nat, s: seq<Byte>, next: seq<Byte>)
    requires IsBlockCipher(c) && |iv| == BLOCK && ChainSoFar(c, iv, was, n, s, n, next)
    ensures Rewritten(was, s, n, Chain(c, iv, was[..n])) && next == NextIv(iv, Chain(c, iv, was[..n]))
  {
    assert s[..n] + [] == s[..n];
  }

  /** Chained encryption of the first bytes; the chaining value comes out. */
  method ChainInPlace(c: Cipher, data: array<Byte>, n: nat, iv: seq<Byte>) returns (next: seq<Byte>)
    requires IsBlockCipher(c) && n <= data.Length && n % BLOCK == 0 && |iv| == BLOCK
    modifies data
    ensures Rewritten(old(data[..]), data[..], n, Chain(c, iv, old(data[..])[..n]))
    ensures next == NextIv(iv, Chain(c, iv, old(data[..])[..n]))
  {
    ghost var was := data[..];
    var i := 0;
    next := iv;
    ChainStart(c, iv, was, n);
    while i < n
      invariant ChainSoFar(c, iv, was, n, data[..], i, next)
    {
      next := ChainOne(c, data, n, i, next, iv, was);
      i := i + BLOCK;
    }
    ChainEnd(c, iv, was, n, data[..], next);
  }

  method EncryptBlock(c: Cipher, data: array<Byte>, i: nat, next: seq<Byte>) returns (b: seq<Byte>)
    requires IsBlockCipher(c) && i + BLOCK <= data.Length && |next| == BLOCK
    modifies data
    ensures b == c.enc(Masked(old(data[..])[i..i + BLOCK], next))
    ensures data[..] == old(data[..])[..i] + b + old(data[..])[i + BLOCK..]
  {
    b := c.enc(Masked(data[i..i + BLOCK], next));
    PutBlock(data, i, b);
  }

  method DecryptBlock(c: Cipher, data: array<Byte>, i: nat, next: seq<Byte>) returns (encrypted: seq<Byte>)
    requires IsBlockCipher(c) && i + BLOCK <= data.Length && |next| == BLOCK
    modifies data
    ensures encrypted == old(data[..])[i..i + BLOCK]
    ensures data[..] == old(data[..])[..i] + Masked(c.dec(encrypted), next) + old(data[..])[i + BLOCK..]
  {
    encrypted := data[i..i + BLOCK];
    PutBlock(data, i, Masked(c.dec(encrypted), next));
  }

  method ChainOne(c: Cipher, data: array<Byte>, ghost n: nat, i: nat, next: seq<Byte>, ghost iv: seq<Byte>, ghost was: seq<Byte>)
    returns (b: seq<Byte>)
    requires IsBlockCipher(c) && |iv| == BLOCK && i < n && ChainSoFar(c, iv, was, n, data[..], i, next)
    modifies data
    ensures ChainSoFar(c, iv, was, n, data[..], i + BLOCK, b)
  {
    Room(n - i);
    ghost var s := data[..];
    SameBlock(was, s, i);
    b := EncryptBlock(c, data, i, next);
    ChainStep(c, iv, was, n, s, i, next, b, data[..]);
  }

  lemma SameBlock(was: seq<Byte>, s: seq<Byte>, i: nat)
    requires i + BLOCK <= |was| == |s| && s[i..] == was[i..]
    ensures s[i..i + BLOCK] == was[i..i + BLOCK]
  {
    assert s[i..][..BLOCK] == s[i..i + BLOCK] && was[i..][..BLOCK] == was[i..i + BLOCK];
  }

  ghost predicate UnchainSoFar(c: Cipher, iv: seq<Byte>, was: seq<Byte>, n: nat, s: seq<Byte>, i: nat, next: seq<Byte>)
    requires IsBlockCipher(c) && |iv| == BLOCK
  {
    && i <= n <= |was| == |s| && (n - i) % BLOCK == 0 && |next| == BLOCK && s[i..] == was[i..]
    && s[..i] + Unchain(c, next, was[i..n]) == Unchain(c, iv, was[..n])
    && NextIv(next, was[i..n]) == NextIv(iv, was[..n])
  }

  lemma UnchainStep(c: Cipher, iv: seq<Byte>, was: seq<Byte>, n: nat, s: seq<Byte>, i: nat, next: seq<Byte>, b: seq<Byte>, now: seq<Byte>)
    requires IsBlockCipher(c) && |iv| == BLOCK && UnchainSoFar(c, iv, was, n, s, i, next) && i + BLOCK <= n && (n - (i + BLOCK)) % BLOCK == 0
    requires b == Masked(c.dec(was[i..i + BLOCK]), next) && now == s[..i] + b + s[i + BLOCK..]
    ensures UnchainSoFar(c, iv, was, n, now, i + BLOCK, was[i..i + BLOCK])
  {
    var e := was[i..i + BLOCK];
    BlockPut(s, i, b, now);
    NextBlock(was, i, n);
    assert Unchain(c, next, was[i..n]) == b + Unchain(c, e, was[i + BLOCK..n]);
    assert NextIv(next, was[i..n]) == NextIv(e, was[i + BLOCK..n]);
    Assoc(s[..i], b, Unchain(c, e, was[i + BLOCK..n]));
    assert s[i..][BLOCK..] == was[i..][BLOCK..];
  }

  lemma UnchainStart(c: Cipher, iv: seq<Byte>, was: seq<Byte>, n: nat)
    requires IsBlockCipher(c) && |iv| == BLOCK && n <= |was| && n % BLOCK == 0
    ensures UnchainSoFar(c, iv, was, n, was, 0, iv)
  {
    assert was[0..n] == was[..n];
    EmptyLeft(Unchain(c, iv, was[..n]));
  }

  lemma UnchainEnd(c: Cipher, iv: seq<Byte>, was: seq<Byte>, n: nat, s: seq<Byte>, next: seq<Byte>)
    requires IsBlockCipher(c) && |iv| == BLOCK && UnchainSoFar(c, iv, was, n, s, n, next)
    ensures Rewritten(was, s, n, Unchain(c, iv, was[..n])) && next == NextIv(iv, was[..n])
  {
    assert s[..n] + [] == s[..n];
  }

  method UnchainInPlace(c: Cipher, data: array<Byte>, n: nat, iv: seq<Byte>) returns (next: seq<Byte>)
    requires IsBlockCipher(c) && n <= data.Length && n % BLOCK == 0 && |iv| == BLOCK
    modifies data
    ensures Rewritten(old(data[..]), data[..], n, Unchain(c, iv, old(data[..])[..n]))
    ensures next == NextIv(iv, old(data[..])[..n])
  {
    ghost var was := data[..];
    var i := 0;
    next := iv;
    UnchainStart(c, iv, was, n);
    while i < n
      invariant UnchainSoFar(c, iv, was, n, data[..], i, next)
    {
      next := UnchainOne(c, data, n, i, next, iv, was);
      i := i + BLOCK;
    }
    UnchainEnd(c, iv, was, n, data[..], next);
  }

  method UnchainOne(c: Cipher, data: array<Byte>, ghost n: nat, i: nat, next: seq<Byte>, ghost iv: seq<Byte>, ghost was: seq<Byte>)
    returns (encrypted: seq<Byte>)
    requires IsBlockCipher(c) && |iv| == BLOCK && i < n && UnchainSoFar(c, iv, was, n, data[..], i, next)
    modifies data
    ensures UnchainSoFar(c, iv, was, n, data[..], i + BLOCK, encrypted)
  {
    Room(n - i);
    ghost var s := data[..];
    SameBlock(was, s, i);
    encrypted := DecryptBlock(c, data, i, next);
    UnchainStep(c, iv, was, n, s, i, next, Masked(c.dec(encrypted), next), data[..]);
  }

  /** Mask the bytes from one place up to another. */
  method MaskInPlace(data: array<Byte>, from: nat, to: nat, mask: seq<Byte>)
    requires from <= to <= data.Length && to - from <= |mask|
    modifies data
    ensures data[..from] == old(data[..from]) && data[to..] == old(data[to..])
    ensures data[from..to] == Masked(old(data[from..to]), mask)
  {
    var k := 0;
    while from + k < to
      invariant from + k <= to
      invariant data[..from] == old(data[..from]) && data[to..] == old(data[to..])
      invariant forall j | from <= j < from + k :: data[j] == Xor(old(data[j]), mask[j - from])
      invariant forall j | from + k <= j < to :: data[j] == old(data[j])
    {
      data[from + k] := Xor(data[from + k], mask[k]);
      k := k + 1;
    }
    MaskedIs(old(data[from..to]), mask, data[from..to]);
  }

  lemma MaskedIs(was: seq<Byte>, mask: seq<Byte>, now: seq<Byte>)
    requires |now| == |was| <= |mask| && forall i | 0 <= i < |was| :: now[i] == Xor(was[i], mask[i])
    ensures now == Masked(was, mask)
  {
  }

  method StreamInPlace(c: Cipher, data: array<Byte>, n: nat, iv: seq<Byte>)
    requires n <= data.Length
    modifies data
    ensures Rewritten(old(data[..]), data[..], n, Streamed(c, iv, 0, old(data[..n])))
  {
    var k := 0;
    while k < n
      invariant k <= n && data[n..] == old(data[n..])
      invariant forall j | 0 <= j < k :: data[j] == Xor(old(data[j]), c.stream(iv, j))
      invariant forall j | k <= j < n :: data[j] == old(data[j])
    {
      data[k] := Xor(data[k], c.stream(iv, k));
      k := k + 1;
    }
  }

  ghost function TailMaskOf(c: Cipher, iv: seq<Byte>, short: seq<Byte>, full: nat, p: seq<Byte>): seq<Byte>
    requires IsBlockCipher(c) && |iv| == BLOCK && |short| == BLOCK && (full > 0 ==> |p| == BLOCK)
  {
    if full > 0 then c.enc(Masked(p, iv)) else c.enc(short)
  }

  ghost predicate TailMasked(was: seq<Byte>, now: seq<Byte>, full: nat, length: nat, mask: seq<Byte>) {
    && full <= length <= |was| == |now| && length - full <= |mask|
    && now[..full] == was[..full] && now[length..] == was[length..]
    && now[full..length] == Masked(was[full..length], mask)
  }

  lemma FullOfFull(length: nat)
    ensures FullLength(FullLength(length)) == FullLength(length)
    ensures FullLength(length) > 0 ==> FullLength(length) >= BLOCK
  {
  }

  lemma TailMaskIs(c: Cipher, iv: seq<Byte>, short: seq<Byte>, e: seq<Byte>, p: seq<Byte>)
    requires IsBlockCipher(c) && |iv| == BLOCK && |short| == BLOCK && FullLength(|e|) == |e|
    requires |e| > 0 ==> |e| >= BLOCK && p == e[|e| - BLOCK..]
    ensures TailMaskOf(c, iv, short, |e|, p) == TailMask(c, iv, short, e)
  {
    if |e| > 0 {
      NextIvIsLastBlock(iv, e);
    }
  }

  lemma TailEnds(was: seq<Byte>, mid: seq<Byte>, now: seq<Byte>, full: nat, length: nat, e: seq<Byte>, tail: seq<Byte>)
    requires full <= length <= |was| && Rewritten(was, mid, full, e)
    requires |now| == |mid| && now[..full] == mid[..full] && now[full..length] == tail && now[length..] == mid[length..]
    ensures Rewritten(was, now, length, e + tail)
  {
    assert now[..length] == now[..full] + now[full..length];
    assert mid[full..][length - full..] == mid[length..] && was[full..][length - full..] == was[length..];
  }

  /** What is there after the whole blocks are done and, if there is a rest to mask, it is masked. */
  ghost predicate Finished(c: Cipher, iv: seq<Byte>, short: seq<Byte>, rtb: bool, mid: seq<Byte>, now: seq<Byte>,
                           full: nat, length: nat, p: seq<Byte>)
    requires IsBlockCipher(c) && |iv| == BLOCK && |short| == BLOCK
  {
    if rtb && length > full then
      (full > 0 ==> |p| == BLOCK) && TailMasked(mid, now, full, length, TailMaskOf(c, iv, short, full, p))
    else now == mid
  }

  lemma FinishedEnds(c: Cipher, iv: seq<Byte>, short: seq<Byte>, rtb: bool, was: seq<Byte>, mid: seq<Byte>,
                     now: seq<Byte>, full: nat, length: nat, p: seq<Byte>, e: seq<Byte>, mask: seq<Byte>)
    requires IsBlockCipher(c) && |iv| == BLOCK && |short| == BLOCK && full <= length <= |was|
    requires Rewritten(was, mid, full, e) && |mask| >= length - full
    requires Finished(c, iv, short, rtb, mid, now, full, length, p)
    requires rtb && length > full ==> mask == TailMaskOf(c, iv, short, full, p)
    ensures Rewritten(was, now, length, e + if rtb then Masked(was[full..length], mask) else was[full..length])
  {
    assert mid[full..][..length - full] == mid[full..length] && was[full..][..length - full] == was[full..length];
    if rtb && length > full {
      TailEnds(was, mid, now, full, length, e, Masked(was[full..length], mask));
    } else {
      assert rtb ==> Masked(was[full..length], mask) == was[full..length];
      TailEnds(was, mid, now, full, length, e, was[full..length]);
    }
  }

  lemma SealedInPlace(c: Cipher, iv: seq<Byte>, short: seq<Byte>, rtb: bool, was: seq<Byte>, length: nat, mid: seq<Byte>, now: seq<Byte>, p: seq<Byte>)
    requires IsBlockCipher(c) && |iv| == BLOCK && |short| == BLOCK && length <= |was|
    requires Rewritten(was, mid, FullLength(length), Chain(c, iv, was[..FullLength(length)]))
    requires Finished(c, iv, short, rtb, mid, now, FullLength(length), length, p)
    requires var full := FullLength(length); full > 0 ==> full >= BLOCK && p == mid[full - BLOCK..full]
    ensures Rewritten(was, now, length, Sealed(c, iv, short, rtb, was[..length]))
    ensures IvAfter(iv, Sealed(c, iv, short, rtb, was[..length])) == NextIv(iv, Chain(c, iv, was[..FullLength(length)]))
  {
    var full, d := FullLength(length), was[..length];
    var e := Chain(c, iv, d[..full]);
    assert d[..full] == was[..full] && d[full..] == was[full..length];
    FullOfFull(length);
    assert full > 0 ==> mid[full - BLOCK..full] == mid[..full][full - BLOCK..];
    TailMaskIs(c, iv, short, e, p);
    FinishedEnds(c, iv, short, rtb, was, mid, now, full, length, p, e, TailMask(c, iv, short, e));
    assert Sealed(c, iv, short, rtb, d)[..full] == e;
  }

  lemma {:induction false} UnsealedInPlace(c: Cipher, iv: seq<Byte>, short: seq<Byte>, rtb: bool, was: seq<Byte>, length: nat, mid: seq<Byte>, now: seq<Byte>, p: seq<Byte>)
    requires IsBlockCipher(c) && |iv| == BLOCK && |short| == BLOCK && length <= |was|
    requires Rewritten(was, mid, FullLength(length), Unchain(c, iv, was[..FullLength(length)]))
    requires Finished(c, iv, short, rtb, mid, now, FullLength(length), length, p)
    requires var full := FullLength(length);
             rtb && length > full > 0 ==> full >= BLOCK && p == was[full - BLOCK..full]
    ensures Rewritten(was, now, length, Unsealed(c, iv, short, rtb, was[..length]))
    ensures IvAfter(iv, was[..length]) == NextIv(iv, was[..FullLength(length)])
  {
    var full, d := FullLength(length), was[..length];
    var e := d[..full];
    assert e == was[..full] && d[full..] == was[full..length];
    FullOfFull(length);
    if rtb && length > full {
      assert full > 0 ==> was[full - BLOCK..full] == e[full - BLOCK..];
      TailMaskIs(c, iv, short, e, p);
    }
    FinishedEnds(c, iv, short, rtb, was, mid, now, full, length, p, Unchain(c, iv, e), TailMask(c, iv, short, e));
  }

  ghost function Crypted(c: Cipher, k: Settings, encryption: bool, rtb: bool, d: seq<Byte>): seq<Byte>
    requires IsBlockCipher(c) && Proper(k)
  {
    if encryption then Encrypted(c, k, rtb, d) else Decrypted(c, k, rtb, d)
  }

  lemma EachInPlaceEnds(f: seq<Byte> -> seq<Byte>, was: seq<Byte>, now: seq<Byte>, length: nat)
    requires length <= |was|
    requires Rewritten(was, now, FullLength(length), EachBlock(f, was[..FullLength(length)]))
    ensures Rewritten(was, now, length, EachBlock(f, was[..length]))
  {
    var full, d := FullLength(length), was[..length];
    assert d == d[..full] + d[full..] && d[..full] == was[..full] && d[full..] == was[full..][..length - full];
    EachBlockSplit(f, d[..full], d[full..]);
    assert now[..length] == now[..full] + now[full..][..length - full];
    assert now[full..][length - full..] == now[length..] && was[full..][length - full..] == was[length..];
  }

  /** Data without its padding. */
  function Unpadded(d: seq<Byte>): seq<Byte> {
    d[..OriginalLength(d)]
  }

  /** Padding and encrypting, then decrypting with the same settings and unpadding, returns the data in every
      mode; the padded form is never empty, so that an empty string stands for itself. */
  lemma PaddedRoundTrip(c: Cipher, k: Settings, d: seq<Byte>)
    requires IsBlockCipher(c) && Proper(k)
    ensures var e := Encrypted(c, k, false, Pad(d, BLOCK)); e != [] && Unpadded(Decrypted(c, k, false, e)) == d
  {
    DecryptedEncrypted(c, k, false, Pad(d, BLOCK));
    UnpadIff(d, BLOCK);
    if !k.ctr && !k.ivValid {
      EachBlockUndone(c, Pad(d, BLOCK));
    }
  }

  /** A wrapped key unwraps to the same 128 bits. */
  lemma WrappedKeyUnwraps(c: Cipher, k: Settings, key: seq<Byte>)
    requires IsBlockCipher(c) && Proper(k) && |key| == BLOCK
    ensures Decrypted(c, k, false, Encrypted(c, k, false, Pad(key, BLOCK)))[..BLOCK] == key
  {
    DecryptedEncrypted(c, k, false, Pad(key, BLOCK));
    UnpadIff(key, BLOCK);
  }

  /** Padding at the end of a buffer that has room for it; returns the padded length. */
  method PadInPlace(data: array<Byte>, length: nat, multiple: nat) returns (r: nat)
    requires multiple > 0 && length + multiple <= data.Length
    modifies data
    ensures r <= data.Length && data[..r] == Pad(old(data[..length]), multiple) && data[r..] == old(data[r..])
  {
    ExtraIs(length, multiple);
    var extra := Extra(length, multiple);
    r := length + extra;
    forall i | length <= i < r {
      data[i] := AsByte(extra);
    }
  }

  class AesKey {
    const key: array<Byte>
    var bits: nat

    constructor (key: array<Byte>, bits: nat)
      ensures this.key == key && this.bits == bits
    {
      this.key, this.bits := key, bits;
    }

    /** Pad the first half out to the whole. */
    method PadOut(ghost plain: seq<Byte>)
      requires key.Length == 2 * BLOCK && plain == key[..BLOCK]
      modifies this, key
      ensures bits == 256 && key[..] == Pad(plain, BLOCK)
    {
      UnpadIff(plain, BLOCK);
      var padded := PadInPlace(key, BLOCK, BLOCK);
      assert key[..padded] == key[..];
      bits := 256;
    }
  }

  class Aes {
    const cipher: Cipher
    var bits: nat
    var iv: seq<Byte>
    var ivValid: bool
    var short: seq<Byte>
    var ctr: bool

    function Now(): Settings
      reads this
    {
      Settings(bits, iv, ivValid, short, ctr)
    }

    ghost predicate Valid()
      reads this
    {
      Proper(Now())
    }

    constructor (cipher: Cipher, k: Settings)
      requires Proper(k)
      ensures this.cipher == cipher && Valid() && Now() == k
    {
      this.cipher := cipher;
      bits, iv, ivValid, short, ctr := k.bits, k.iv, k.ivValid, k.short, k.ctr;
    }

    /** Mask the bytes after the last whole block, given the last encrypted block. */
    method MaskTail(data: array<Byte>, full: nat, length: nat, p: seq<Byte>, initial: seq<Byte>)
      requires IsBlockCipher(cipher) && Valid() && full <= length <= data.Length && length - full <= BLOCK
      requires |initial| == BLOCK && (full > 0 ==> |p| == BLOCK)
      modifies data
      ensures TailMasked(old(data[..]), data[..], full, length, TailMaskOf(cipher, initial, short, full, p))
    {
      var last := if full > 0 then cipher.enc(Masked(p, initial)) else cipher.enc(short);
      MaskInPlace(data, full, length, last);
    }

    /** Encrypt the first bytes in chained mode, with a residual termination block if asked for. */
    method EncryptChained(data: array<Byte>, length: nat, rtb: bool)
      requires IsBlockCipher(cipher) && Valid() && length <= data.Length && !ctr && ivValid
      modifies this`iv, data
      ensures Rewritten(old(data[..]), data[..], length, Sealed(cipher, old(iv), short, rtb, old(data[..])[..length]))
      ensures iv == IvAfter(old(iv), Sealed(cipher, old(iv), short, rtb, old(data[..])[..length]))
      ensures Valid()
    {
      var initial := iv;
      var full := FullLength(length);
      FullOfFull(length);
      ghost var was := data[..];
      iv := ChainInPlace(cipher, data, full, initial);
      ghost var mid := data[..];
      var p := if full > 0 then data[full - BLOCK..full] else [];
      if rtb && length > full {
        MaskTail(data, full, length, p, initial);
      }
      SealedInPlace(cipher, initial, short, rtb, was, length, mid, data[..], p);
    }

    /** Decrypt likewise; the last encrypted block is kept before it is overwritten. */
    method DecryptChained(data: array<Byte>, length: nat, rtb: bool)
      requires IsBlockCipher(cipher) && Valid() && length <= data.Length && !ctr && ivValid
      modifies this`iv, data
      ensures Rewritten(old(data[..]), data[..], length, Unsealed(cipher, old(iv), short, rtb, old(data[..])[..length]))
      ensures iv == IvAfter(old(iv), old(data[..])[..length])
      ensures Valid()
    {
      var initial := iv;
      var full := FullLength(length);
      FullOfFull(length);
      ghost var was := data[..];
      var p := if rtb && length > full && full > 0 then data[full - BLOCK..full] else [];
      assert rtb && length > full > 0 ==> p == was[full - BLOCK..full];
      iv := UnchainInPlace(cipher, data, full, initial);
      ghost var mid := data[..];
      if rtb && length > full {
        MaskTail(data, full, length, p, initial);
      }
      UnsealedInPlace(cipher, initial, short, rtb, was, length, mid, data[..], p);
    }

    /** Encrypt or decrypt the first bytes in place, in the mode the settings call for. */
    method Encrypt(data: array<Byte>, length: nat, encryption: bool, rtb: bool) returns (ok: bool)
      requires IsBlockCipher(cipher) && Valid() && length <= data.Length
      modifies this`iv, data
      ensures Valid() && ok == (old(ctr) ==> old(bits) == 128 && old(ivValid))
      ensures var k, was := old(Now()), old(data[..])[..length];
              && Rewritten(old(data[..]), data[..], length, Crypted(cipher, k, encryption, rtb, was))
              && Now() == After(k, if encryption then Crypted(cipher, k, encryption, rtb, was) else was)
    {
      if ctr {
        assert data[..][length..] == old(data[..])[length..];
        if bits != 128 || !ivValid {
          return false;
        }
        assert data[..][..length] == data[..length];
        StreamInPlace(cipher, data, length, iv);
      } else if ivValid {
        if encryption {
          EncryptChained(data, length, rtb);
        } else {
          DecryptChained(data, length, rtb);
        }
      } else {
        ghost var was := data[..];
        EachInPlace(if encryption then cipher.enc else cipher.dec, data, FullLength(length));
        EachInPlaceEnds(if encryption then cipher.enc else cipher.dec, was, data[..], length);
      }
      return true;
    }

    /** Encrypt a string, padded to whole blocks. */
    method EncryptString(plaintext: seq<Byte>) returns (ok: bool, ciphertext: seq<Byte>)
      requires IsBlockCipher(cipher) && Valid()
      modifies this`iv
      ensures Valid() && ok == Ready(old(Now()))
      ensures ok ==> ciphertext == Encrypted(cipher, old(Now()), false, Pad(plaintext, BLOCK))
    {
      var r;
      ok, r := EncryptVector(plaintext);
      ciphertext := if ok then r else [];
    }

    /** Pad a vector and encrypt it; a failed encryption leaves it padded. */
    method EncryptVector(data: seq<Byte>) returns (ok: bool, r: seq<Byte>)
      requires IsBlockCipher(cipher) && Valid()
      modifies this`iv
      ensures Valid() && ok == Ready(old(Now()))
      ensures r == Encrypted(cipher, old(Now()), false, Pad(data, BLOCK))
    {
      var padded := Pad(data, BLOCK);
      var a := new Byte[|padded|](i requires 0 <= i < |padded| => padded[i]);
      assert a[..] == padded == padded[..|padded|];
      ok := Encrypt(a, a.Length, true, false);
      assert a[..] == a[..][..a.Length];
      r := a[..];
    }

    /** Decrypt a string and take the padding off; an empty one stays empty. */
    method DecryptString(ciphertext: seq<Byte>) returns (ok: bool, plaintext: seq<Byte>)
      requires IsBlockCipher(cipher) && Valid()
      modifies this`iv
      ensures Valid() && ok == (ciphertext == [] || Ready(old(Now())))
      ensures ok ==> plaintext == if ciphertext == [] then [] else Unpadded(Decrypted(cipher, old(Now()), false, ciphertext))
    {
      if ciphertext == [] {
        return true, [];
      }
      ok, plaintext := DecryptVector(ciphertext);
    }

    method DecryptVector(data: seq<Byte>) returns (ok: bool, r: seq<Byte>)
      requires IsBlockCipher(cipher) && Valid() && data != []
      modifies this`iv
      ensures Valid() && ok == Ready(old(Now()))
      ensures r == if ok then Unpadded(Decrypted(cipher, old(Now()), false, data)) else data
    {
      var a := new Byte[|data|](i requires 0 <= i < |data| => data[i]);
      assert a[..] == data == data[..|data|];
      ok := Encrypt(a, a.Length, false, false);
      assert a[..] == a[..][..a.Length];
      r := a[..];
      if ok {
        r := r[..OriginalLength(r)];
      }
    }

    method CryptKey(key: array<Byte>, encryption: bool) returns (ok: bool)
      requires IsBlockCipher(cipher) && Valid() && key.Length == 2 * BLOCK
      modifies this`iv, key
      ensures Valid() && ok == Ready(old(Now())) && key[..] == Crypted(cipher, old(Now()), encryption, false, old(key[..]))
    {
      assert key[..] == key[..][..2 * BLOCK];
      ok := Encrypt(key, 2 * BLOCK, encryption, false);
      assert key[..] == key[..][..2 * BLOCK];
    }

    /** Wrap another key in place: only a 128-bit key, which becomes 256 bits. */
    method EncryptKey(other: AesKey, ghost plain: seq<Byte>) returns (ok: bool)
      requires IsBlockCipher(cipher) && Valid() && other.key.Length == 2 * BLOCK
      requires plain == other.key[..BLOCK]
      modifies this`iv, other, other.key
      ensures Valid() && ok == (old(other.bits) == 128 && Ready(old(Now())))
      ensures ok ==> other.bits == 256 && other.key[..] == Encrypted(cipher, old(Now()), false, Pad(plain, BLOCK))
    {
      if other.bits != 128 {
        return false;
      }
      other.PadOut(plain);
      ok := CryptKey(other.key, true);
    }

    /** Unwrap a 256-bit key in place; its first half is the key. */
    method DecryptKey(other: AesKey) returns (ok: bool)
      requires IsBlockCipher(cipher) && Valid() && other.key.Length == 2 * BLOCK
      modifies this`iv, other, other.key
      ensures Valid() && ok == (old(other.bits) == 256 && Ready(old(Now())))
      ensures ok ==> other.bits == 128 && other.key[..] == Decrypted(cipher, old(Now()), false, old(other.key[..]))
    {
      if other.bits != 256 {
        return false;
      }
      ok := CryptKey(other.key, false);
      if ok {
        other.bits := 128;
      }
    }
  }
}
