/**
 Padding and block encryption of payloads, gate/crypto/crypto.go. The block cipher itself is
 abstract: for every key of eight bytes, a pair of inverse functions on blocks of eight bytes.
 */
module Crypto {
  import opened Prelude

  const BLOCK_SIZE := 8

  datatype Error = KeySize | NotFullBlocks | Panic

  datatype Cipher = Cipher(encrypt: Bytes -> Bytes, decrypt: Bytes -> Bytes)
  {
    /** Blocks go to blocks, and `decrypt` undoes `encrypt`. */
    ghost predicate Good() {
      && (forall b: Bytes {:trigger encrypt(b)} | |b| == BLOCK_SIZE :: |encrypt(b)| == BLOCK_SIZE)
      && (forall b: Bytes {:trigger decrypt(b)} | |b| == BLOCK_SIZE :: |decrypt(b)| == BLOCK_SIZE)
      && (forall b: Bytes {:trigger decrypt(encrypt(b))} | |b| == BLOCK_SIZE :: decrypt(encrypt(b)) == b)
    }
  }

  /** The cipher of each key. */
  type Keyed = Bytes -> Cipher

  ghost predicate AllGood(des: Keyed) {
    forall key :: des(key).Good()
  }

  // ---------------------------------------------------------------- padding

  function Repeat(b: Byte, n: nat): Bytes {
    seq(n, _ => b)
  }

  function Padding(data: Bytes, blockSize: nat): Bytes
    requires blockSize > 0
  {
    var n := blockSize - |data| % blockSize;
    data + Repeat(n % 0x100, n)
  }

  /** Up to the next multiple of the block size, at least by one byte, every byte of the padding gives its length. */
  ghost predicate IsPadded(p: Bytes, data: Bytes, blockSize: nat)
    requires blockSize > 0
  {
    && |data| < |p| <= |data| + blockSize && |p| % blockSize == 0 && p[..|data|] == data
    && forall i | |data| <= i < |p| :: p[i] == (|p| - |data|) % 0x100
  }

  lemma PaddingIs(p: Bytes, data: Bytes, blockSize: nat)
    requires blockSize > 0
    ensures IsPadded(p, data, blockSize) <==> p == Padding(data, blockSize)
  {
    var n := blockSize - |data| % blockSize;
    NextBlock(|data|, blockSize);
    if IsPadded(p, data, blockSize) {
      OneMultiple(|p|, |data| + n, blockSize);
      assert p == p[..|data|] + p[|data|..];
      assert p[|data|..] == Repeat(n % 0x100, n);
    }
  }

  lemma NextBlock(k: nat, blockSize: nat)
    requires blockSize > 0
    ensures (k + blockSize - k % blockSize) % blockSize == 0
  {
    var q := k / blockSize + 1;
    assert k == blockSize * (k / blockSize) + k % blockSize;
    assert blockSize * q == blockSize * (k / blockSize) + blockSize;
    QuotientIs(blockSize * q, blockSize, q, 0);
  }

  /** Two multiples less than a divisor apart are the same. */
  lemma OneMultiple(x: nat, y: nat, d: nat)
    requires d > 0 && x % d == y % d == 0 && x < y + d && y < x + d
    ensures x == y
  {
    assert x == d * (x / d) && y == d * (y / d);
    ProductGrows(d, x / d, y / d);
    ProductGrows(d, y / d, x / d);
  }

  /** An empty input, or a last byte beyond its length, is an index out of range. */
  function UnPadding(data: Bytes): Result<Bytes, Error> {
    if data == [] || data[|data| - 1] > |data| then Err(Panic)
    else Ok(data[..|data| - data[|data| - 1]])
  }

  /** Whatever the other bytes of the padding are, it comes off exactly when its last byte gives its length. */
  lemma UnPaddingTakes(data: Bytes, pad: Bytes)
    requires pad != []
    ensures UnPadding(data + pad) == Ok(data) <==> pad[|pad| - 1] == |pad|
    ensures UnPadding(data + pad) == Err(Panic) <==> pad[|pad| - 1] > |data| + |pad|
    ensures UnPadding([]) == Err(Panic)
  {
    assert (data + pad)[..|data|] == data;
  }

  lemma PaddedLength(data: Bytes)
    ensures |Padding(data, BLOCK_SIZE)| == (|data| / BLOCK_SIZE + 1) * BLOCK_SIZE
  {
  }

  /** Padding comes off again exactly when its length fits into the byte that records it. */
  lemma PaddingComesOff(data: Bytes, blockSize: nat)
    requires blockSize > 0
    ensures UnPadding(Padding(data, blockSize)) == Ok(data) <==> blockSize - |data| % blockSize < 0x100
  {
    var n := blockSize - |data| % blockSize;
    var p := Padding(data, blockSize);
    assert p[|p| - 1] == n % 0x100;
    assert p[..|data|] == data;
  }

  // ---------------------------------------------------------------- blocks

  function EncryptBlocks(c: Cipher, data: Bytes): Bytes {
    if |data| < BLOCK_SIZE then [] else c.encrypt(data[..BLOCK_SIZE]) + EncryptBlocks(c, data[BLOCK_SIZE..])
  }

  function DecryptBlocks(c: Cipher, data: Bytes): Bytes {
    if |data| < BLOCK_SIZE then [] else c.decrypt(data[..BLOCK_SIZE]) + DecryptBlocks(c, data[BLOCK_SIZE..])
  }

  lemma {:induction false} BlockLengths(c: Cipher, data: Bytes)
    requires c.Good() && |data| % BLOCK_SIZE == 0
    ensures |EncryptBlocks(c, data)| == |DecryptBlocks(c, data)| == |data|
  {
    if |data| >= BLOCK_SIZE {
      BlockLengths(c, data[BLOCK_SIZE..]);
    }
  }

  lemma {:induction false} BlocksInverse(c: Cipher, data: Bytes)
    requires c.Good() && |data| % BLOCK_SIZE == 0
    ensures DecryptBlocks(c, EncryptBlocks(c, data)) == data
  {
    if |data| >= BLOCK_SIZE {
      var first, rest := c.encrypt(data[..BLOCK_SIZE]), EncryptBlocks(c, data[BLOCK_SIZE..]);
      BlocksInverse(c, data[BLOCK_SIZE..]);
      assert EncryptBlocks(c, data) == first + rest;
      assert (first + rest)[..BLOCK_SIZE] == first && (first + rest)[BLOCK_SIZE..] == rest;
      assert data == data[..BLOCK_SIZE] + data[BLOCK_SIZE..];
    }
  }

  /** The i-th block of s. */
  function BlockOf(s: Bytes, i: nat): Bytes {
    if BLOCK_SIZE * (i + 1) <= |s| then s[BLOCK_SIZE * i..BLOCK_SIZE * (i + 1)] else []
  }

  /** Each block of the output is what f makes of the input's block there (section 6.1 of NIST SP 800-38A). */
  ghost predicate IsEcb(f: Bytes -> Bytes, input: Bytes, output: Bytes) {
    && |output| == |input| && |input| % BLOCK_SIZE == 0
    && forall i: nat | BLOCK_SIZE * (i + 1) <= |input| :: BlockOf(output, i) == f(BlockOf(input, i))
  }

  lemma {:induction false} BlocksAreEcb(c: Cipher, data: Bytes)
    requires c.Good() && |data| % BLOCK_SIZE == 0
    ensures IsEcb(c.encrypt, data, EncryptBlocks(c, data)) && IsEcb(c.decrypt, data, DecryptBlocks(c, data))
  {
    BlockLengths(c, data);
    if data != [] {
      var rest := data[BLOCK_SIZE..];
      BlocksAreEcb(c, rest);
      FirstThenRest(c.encrypt, data, c.encrypt(data[..BLOCK_SIZE]), EncryptBlocks(c, rest));
      FirstThenRest(c.decrypt, data, c.decrypt(data[..BLOCK_SIZE]), DecryptBlocks(c, rest));
    }
  }

  lemma SliceOfRest(s: Bytes, d: nat, i: nat, j: nat)
    requires i <= j && d + j <= |s|
    ensures s[d..][i..j] == s[d + i..d + j]
  {
    assert forall k | i <= k < j :: s[d..][k] == s[d + k];
  }

  lemma FirstThenRest(f: Bytes -> Bytes, data: Bytes, first: Bytes, rest: Bytes)
    requires |data| >= BLOCK_SIZE && first == f(data[..BLOCK_SIZE]) && |first| == BLOCK_SIZE
    requires IsEcb(f, data[BLOCK_SIZE..], rest)
    ensures IsEcb(f, data, first + rest)
  {
    var output := first + rest;
    forall i: nat | BLOCK_SIZE * (i + 1) <= |data| ensures BlockOf(output, i) == f(BlockOf(data, i)) {
      if i == 0 {
        assert BlockOf(output, 0) == first && BlockOf(data, 0) == data[..BLOCK_SIZE];
      } else {
        assert BlockOf(output, i) == BlockOf(rest, i - 1);
        SliceOfRest(data, BLOCK_SIZE, BLOCK_SIZE * (i - 1), BLOCK_SIZE * i);
      }
    }
  }

  /** What was encrypted block by block decrypts block by block. */
  lemma EcbTurnsBack(c: Cipher, input: Bytes, output: Bytes)
    requires c.Good() && IsEcb(c.encrypt, input, output)
    ensures IsEcb(c.decrypt, output, input)
  {
    forall i: nat | BLOCK_SIZE * (i + 1) <= |output| ensures BlockOf(input, i) == c.decrypt(BlockOf(output, i)) {
      assert |BlockOf(input, i)| == BLOCK_SIZE;
    }
  }

  /** One block more at the end is one block more at the end of the output. */
  lemma {:induction false} BlockAtEnd(c: Cipher, data: Bytes, block: Bytes)
    requires |data| % BLOCK_SIZE == 0 && |block| == BLOCK_SIZE
    ensures EncryptBlocks(c, data + block) == EncryptBlocks(c, data) + c.encrypt(block)
    ensures DecryptBlocks(c, data + block) == DecryptBlocks(c, data) + c.decrypt(block)
  {
    if data == [] {
      assert data + block == block && block[..BLOCK_SIZE] == block && block[BLOCK_SIZE..] == [];
    } else {
      BlockAtEnd(c, data[BLOCK_SIZE..], block);
      assert (data + block)[..BLOCK_SIZE] == data[..BLOCK_SIZE];
      assert (data + block)[BLOCK_SIZE..] == data[BLOCK_SIZE..] + block;
    }
  }

  // ---------------------------------------------------------------- whole payloads

  function Encrypted(des: Keyed, data: Bytes, key: Bytes): Result<Bytes, Error> {
    if |key| != BLOCK_SIZE then Err(KeySize) else Ok(EncryptBlocks(des(key), Padding(data, BLOCK_SIZE)))
  }

  function Decrypted(des: Keyed, data: Bytes, key: Bytes): Result<Bytes, Error> {
    if |key| != BLOCK_SIZE then Err(KeySize)
    else if |data| % BLOCK_SIZE != 0 then Err(NotFullBlocks)
    else UnPadding(DecryptBlocks(des(key), data))
  }

  /** Every payload, also the empty one, comes back under the key it was encrypted with. */
  lemma EncryptDecrypt(des: Keyed, data: Bytes, key: Bytes)
    requires AllGood(des) && |key| == BLOCK_SIZE
    ensures var e := Encrypted(des, data, key);
            && e.Ok? && Decrypted(des, e.value, key) == Ok(data)
            && |e.value| == (|data| / BLOCK_SIZE + 1) * BLOCK_SIZE
  {
    var padded := Padding(data, BLOCK_SIZE);
    PaddedLength(data);
    PaddingComesOff(data, BLOCK_SIZE);
    BlockLengths(des(key), padded);
    BlocksInverse(des(key), padded);
  }

  // ---------------------------------------------------------------- the code

  /** The block cipher writing one block into the output. */
  method PutBlock(out: array<Byte>, at: nat, block: Bytes)
    requires at + |block| <= out.Length
    modifies out
    ensures out[..at + |block|] == old(out[..at]) + block
  {
    for i := 0 to |block|
      invariant out[..at] == old(out[..at]) && forall k | 0 <= k < i :: out[at + k] == block[k]
    {
      out[at + i] := block[i];
    }
  }

  /** The first `dst` bytes of the input are through, and `done` is what became of them. */
  ghost predicate Through(c: Cipher, encrypting: bool, input: Bytes, dst: int, done: Bytes) {
    && 0 <= dst <= |input| && |input| % BLOCK_SIZE == dst % BLOCK_SIZE == 0
    && done == if encrypting then EncryptBlocks(c, input[..dst]) else DecryptBlocks(c, input[..dst])
  }

  lemma BlockThrough(c: Cipher, encrypting: bool, input: Bytes, dst: int, done: Bytes)
    requires c.Good() && Through(c, encrypting, input, dst, done) && dst < |input|
    ensures dst + BLOCK_SIZE <= |input|
    ensures var src := input[dst..][..BLOCK_SIZE];
            var block := if encrypting then c.encrypt(src) else c.decrypt(src);
            && input[dst..][BLOCK_SIZE..] == input[dst + BLOCK_SIZE..]
            && Through(c, encrypting, input, dst + BLOCK_SIZE, done + block)
  {
    NextMultiple(dst, |input|);
    var src := input[dst..][..BLOCK_SIZE];
    assert input[..dst + BLOCK_SIZE] == input[..dst] + src;
    BlockAtEnd(c, input[..dst], src);
  }

  lemma NextMultiple(k: nat, n: nat)
    requires k < n && k % BLOCK_SIZE == 0 && n % BLOCK_SIZE == 0
    ensures k + BLOCK_SIZE <= n && (k + BLOCK_SIZE) % BLOCK_SIZE == 0
  {
  }

  method DesEncrypt(des: Keyed, plain: Bytes, key: Bytes) returns (r: Result<array<Byte>, Error>)
    requires AllGood(des)
    ensures r.Ok? ==> fresh(r.value) && Encrypted(des, plain, key) == Ok(r.value[..])
    ensures r.Err? ==> Encrypted(des, plain, key) == Err(r.error)
    ensures if |key| != 8 then r == Err(KeySize) else
              r.Ok? && exists p: Bytes ::
                && IsPadded(p, plain, 8)
                && IsEcb(des(key).encrypt, p, r.value[..]) && IsEcb(des(key).decrypt, r.value[..], p)
  {
    if |key| != BLOCK_SIZE {
      return Err(KeySize);
    }
    var block := des(key);
    var padded := Padding(plain, BLOCK_SIZE);
    PaddedLength(plain);
    assert |padded| % BLOCK_SIZE == 0;  // so the length check that stands here cannot fail
    var out := new Byte[|padded|];
    var data, dst := padded, 0;
    while |data| > 0
      invariant 0 <= dst <= out.Length && Through(block, true, padded, dst, out[..dst]) && data == padded[dst..]
      decreases |data|
    {
      BlockThrough(block, true, padded, dst, out[..dst]);
      PutBlock(out, dst, block.encrypt(data[..BLOCK_SIZE]));
      data, dst := data[BLOCK_SIZE..], dst + BLOCK_SIZE;
    }
    assert padded[..dst] == padded && out[..dst] == out[..];
    PaddingIs(padded, plain, BLOCK_SIZE);
    BlocksAreEcb(block, padded);
    EcbTurnsBack(block, padded, out[..]);
    return Ok(out);
  }

  method DesDecrypt(des: Keyed, input: Bytes, key: Bytes) returns (r: Result<Bytes, Error>)
    requires AllGood(des)
    ensures r == Decrypted(des, input, key)
    ensures r == Err(KeySize) <==> |key| != 8
    ensures r == Err(NotFullBlocks) <==> |key| == 8 && |input| % 8 != 0
    ensures |key| == 8 && |input| % 8 == 0 ==>
              exists p: Bytes :: IsEcb(des(key).decrypt, input, p) && r == UnPadding(p)
  {
    if |key| != BLOCK_SIZE {
      return Err(KeySize);
    }
    var block := des(key);
    if |input| % BLOCK_SIZE != 0 {
      return Err(NotFullBlocks);
    }
    var out := new Byte[|input|];
    var data, dst := input, 0;
    while |data| > 0
      invariant 0 <= dst <= out.Length && Through(block, false, input, dst, out[..dst]) && data == input[dst..]
      decreases |data|
    {
      BlockThrough(block, false, input, dst, out[..dst]);
      PutBlock(out, dst, block.decrypt(data[..BLOCK_SIZE]));
      data, dst := data[BLOCK_SIZE..], dst + BLOCK_SIZE;
    }
    assert input[..dst] == input && out[..dst] == out[..];
    BlocksAreEcb(block, input);
    return UnPadding(out[..]);
  }
}
