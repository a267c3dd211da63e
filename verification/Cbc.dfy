/** CBC as section 6.2 of NIST SP 800-38A defines it, over an abstract block cipher. */
module Cbc {
  import opened Bytes
  import opened BitXor

  const BLOCK: nat := 16

  /** A whole number of blocks. */
  predicate Whole(len: nat) {
    len % BLOCK == 0
  }

  lemma WholeStep(i: nat, len: nat)
    requires Whole(i) && Whole(len) && i < len
    ensures i + BLOCK <= len && Whole(i + BLOCK)
  {
  }

  /** A block cipher, passed in: the key comes first, the block second. */
  datatype Cipher = Cipher(enc: (bytes, bytes) -> bytes, dec: (bytes, bytes) -> bytes)

  /** Both directions map blocks to blocks, and decryption undoes encryption. */
  ghost predicate IsBlockCipher(c: Cipher) {
    && (forall k: bytes, b: bytes :: |b| == BLOCK ==> |c.enc(k, b)| == BLOCK)
    && (forall k: bytes, b: bytes :: |b| == BLOCK ==> |c.dec(k, b)| == BLOCK)
    && (forall k: bytes, b: bytes :: |b| == BLOCK ==> c.dec(k, c.enc(k, b)) == b)
  }

  /** C_1 = E(P_1 xor IV), C_j = E(P_j xor C_{j-1}). */
  function Encrypt(c: Cipher, k: bytes, iv: bytes, m: bytes): (r: bytes)
    requires IsBlockCipher(c) && |iv| == BLOCK && Whole(|m|)
    ensures |r| == |m|
    decreases |m|
  {
    if m == [] then []
    else
      var b := c.enc(k, Xor(m[..BLOCK], iv));
      b + Encrypt(c, k, b, m[BLOCK..])
  }

  /** P_1 = D(C_1) xor IV, P_j = D(C_j) xor C_{j-1}. */
  function Decrypt(c: Cipher, k: bytes, iv: bytes, m: bytes): (r: bytes)
    requires IsBlockCipher(c) && |iv| == BLOCK && Whole(|m|)
    ensures |r| == |m|
    decreases |m|
  {
    if m == [] then []
    else Xor(c.dec(k, m[..BLOCK]), iv) + Decrypt(c, k, m[..BLOCK], m[BLOCK..])
  }

  /** The chaining value after some ciphertext: its last block, or still the first value. */
  function Chain(iv: bytes, ciphertext: bytes): (r: bytes)
    requires |iv| == BLOCK
    ensures |r| == BLOCK
  {
    if |ciphertext| < BLOCK then iv else ciphertext[|ciphertext| - BLOCK..]
  }

  lemma {:induction false} EncryptAppend(c: Cipher, k: bytes, iv: bytes, a: bytes, b: bytes)
    requires IsBlockCipher(c) && |iv| == BLOCK && Whole(|a|) && Whole(|b|)
    ensures Encrypt(c, k, iv, a + b) ==
            Encrypt(c, k, iv, a) + Encrypt(c, k, Chain(iv, Encrypt(c, k, iv, a)), b)
    decreases |a|
  {
    if a == [] {
      assert a + b == b;
    } else {
      var first := c.enc(k, Xor(a[..BLOCK], iv));
      assert (a + b)[..BLOCK] == a[..BLOCK] && (a + b)[BLOCK..] == a[BLOCK..] + b;
      EncryptAppend(c, k, first, a[BLOCK..], b);
      ChainSuffix(iv, first, Encrypt(c, k, first, a[BLOCK..]));
    }
  }

  lemma {:induction false} DecryptAppend(c: Cipher, k: bytes, iv: bytes, a: bytes, b: bytes)
    requires IsBlockCipher(c) && |iv| == BLOCK && Whole(|a|) && Whole(|b|)
    ensures Decrypt(c, k, iv, a + b) == Decrypt(c, k, iv, a) + Decrypt(c, k, Chain(iv, a), b)
    decreases |a|
  {
    if a == [] {
      assert a + b == b;
    } else {
      assert (a + b)[..BLOCK] == a[..BLOCK] && (a + b)[BLOCK..] == a[BLOCK..] + b;
      DecryptAppend(c, k, a[..BLOCK], a[BLOCK..], b);
      assert a == a[..BLOCK] + a[BLOCK..];
      ChainSuffix(iv, a[..BLOCK], a[BLOCK..]);
    }
  }

  /** Section 6.2 of SP 800-38A, block by block: each ciphertext block is the cipher of its plaintext block
      combined with the ciphertext block before it, the first with the initial value. */
  lemma {:induction false} EncryptBlock(c: Cipher, k: bytes, iv: bytes, m: bytes, j: nat)
    requires IsBlockCipher(c) && |iv| == 16 && |m| % 16 == 0 && 16 * j + 16 <= |m|
    ensures var e := Encrypt(c, k, iv, m);
            e[16 * j..16 * j + 16] == c.enc(k, Xor(m[16 * j..16 * j + 16], if j == 0 then iv else e[16 * j - 16..16 * j]))
    decreases j
  {
    var b := c.enc(k, Xor(m[..BLOCK], iv));
    var rest, e := Encrypt(c, k, b, m[BLOCK..]), Encrypt(c, k, iv, m);
    assert e == b + rest;
    if j == 0 {
      assert e[0..16] == b && m[0..16] == m[..BLOCK];
    } else {
      EncryptBlock(c, k, b, m[BLOCK..], j - 1);
      assert e[16 * j..16 * j + 16] == rest[16 * (j - 1)..16 * (j - 1) + 16];
      SliceOfRest(m, BLOCK, 16 * (j - 1), 16 * (j - 1) + 16);
      assert e[16 * j - 16..16 * j] == if j == 1 then b else rest[16 * (j - 1) - 16..16 * (j - 1)];
    }
  }

  /** And each plaintext block is the inverse cipher of its ciphertext block, combined with the one before. */
  lemma {:induction false} DecryptBlock(c: Cipher, k: bytes, iv: bytes, m: bytes, j: nat)
    requires IsBlockCipher(c) && |iv| == 16 && |m| % 16 == 0 && 16 * j + 16 <= |m|
    ensures Decrypt(c, k, iv, m)[16 * j..16 * j + 16] ==
            Xor(c.dec(k, m[16 * j..16 * j + 16]), if j == 0 then iv else m[16 * j - 16..16 * j])
    decreases j
  {
    var first := Xor(c.dec(k, m[..BLOCK]), iv);
    var rest, d := Decrypt(c, k, m[..BLOCK], m[BLOCK..]), Decrypt(c, k, iv, m);
    assert d == first + rest;
    if j == 0 {
      assert d[0..16] == first && m[0..16] == m[..BLOCK];
    } else {
      DecryptBlock(c, k, m[..BLOCK], m[BLOCK..], j - 1);
      assert d[16 * j..16 * j + 16] == rest[16 * (j - 1)..16 * (j - 1) + 16];
      SliceOfRest(m, BLOCK, 16 * (j - 1), 16 * (j - 1) + 16);
      if j > 1 {
        SliceOfRest(m, BLOCK, 16 * (j - 1) - 16, 16 * (j - 1));
      } else {
        assert m[0..16] == m[..BLOCK];
      }
    }
  }

  /** Chaining through a first block and then through the rest is chaining through both. */
  lemma ChainSuffix(iv: bytes, first: bytes, rest: bytes)
    requires |iv| == BLOCK && |first| == BLOCK && (|rest| == 0 || |rest| >= BLOCK)
    ensures Chain(iv, first + rest) == Chain(first, rest)
  {
    if rest == [] {
      assert first + rest == first;
    }
  }

  /** Decryption undoes encryption from the same chaining value. */
  lemma {:induction false} DecryptEncrypt(c: Cipher, k: bytes, iv: bytes, m: bytes)
    requires IsBlockCipher(c) && |iv| == BLOCK && Whole(|m|)
    ensures Decrypt(c, k, iv, Encrypt(c, k, iv, m)) == m
    decreases |m|
  {
    if m != [] {
      var mixed := Xor(m[..BLOCK], iv);
      var first := c.enc(k, mixed);
      var rest := Encrypt(c, k, first, m[BLOCK..]);
      assert (first + rest)[..BLOCK] == first && (first + rest)[BLOCK..] == rest;
      XorCancels(m[..BLOCK], iv);
      DecryptEncrypt(c, k, first, m[BLOCK..]);
      assert m == m[..BLOCK] + m[BLOCK..];
    }
  }
}
