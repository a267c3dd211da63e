/** HMAC in src/zuc_hash.c: which key is put into the backend's key store, and what MAC comes out. */
module Hmac {
  import opened Bytes
  import opened BitXor
  import opened Statuses
  import opened Digest

  /** A hash function, passed in, with its result and block sizes. */
  datatype Hash = Hash(of: bytes -> bytes, size: nat, block: nat)

  /** Every hash here has a result no longer than its block. */
  ghost predicate IsHash(h: Hash) {
    && h.size <= h.block && h.block >= 1
    && forall m: bytes :: |h.of(m)| == h.size
  }

  function Repeat(b: byte, n: nat): bytes {
    seq(n, _ => b)
  }

  /** Section 2 of RFC 2104, step 1: hash an over-long key, then append zeros up to the block. */
  function BlockKey(h: Hash, key: bytes): (r: bytes)
    requires IsHash(h)
    ensures |r| == h.block
  {
    var k := if |key| > h.block then h.of(key) else key;
    k + Zeros(h.block - |k|)
  }

  /** HMAC as section 2 of RFC 2104 defines it. */
  function Rfc2104(h: Hash, key: bytes, m: bytes): bytes
    requires IsHash(h)
  {
    var k := BlockKey(h, key);
    h.of(Xor(k, Repeat(0x5c, h.block)) + h.of(Xor(k, Repeat(0x36, h.block)) + m))
  }

  /** Section 2 of RFC 2104 written out: B bytes of key, zeros after its end, combined byte by byte with 0x36 for
      the inner hash and with 0x5c for the outer one. */
  lemma PadsExactly(h: Hash, key: bytes, m: bytes, inner: bytes, outer: bytes)
    requires IsHash(h) && |inner| == h.block && |outer| == h.block
    requires var k := if |key| > h.block then h.of(key) else key;
             forall i :: 0 <= i < h.block ==>
               var b: byte := if i < |k| then k[i] else 0;
               inner[i] == XorByte(b, 0x36) && outer[i] == XorByte(b, 0x5c)
    ensures Rfc2104(h, key, m) == h.of(outer + h.of(inner + m))
  {
    hide XorByte;
    var k := BlockKey(h, key);
    assert Xor(k, Repeat(0x36, h.block)) == inner;
    assert Xor(k, Repeat(0x5c, h.block)) == outer;
  }

  /** The key `import_hmac_key` hands to the backend. */
  function StoredKey(h: Hash, key: bytes): bytes {
    var reduced := if |key| > h.block then h.of(key) else key;
    if |reduced| == 0 then [0] else reduced
  }

  /** `import_hmac_key`: `hashed` and `imported` are the backend's answers. */
  method ImportHmacKey(h: Hash, key: bytes, hashed: Status, imported: Status) returns (st: Status, stored: bytes)
    requires IsHash(h)
    ensures st == if |key| > h.block && hashed != Ok then hashed else imported
    ensures st == Ok ==> stored == StoredKey(h, key)
    ensures st == Ok && |key| > h.block && h.size > 0 ==> stored == h.of(key)
    ensures st == Ok && 1 <= |key| <= h.block ==> stored == key
    ensures st == Ok && key == [] ==> stored == [0]
  {
    var k := key;
    if |key| > h.block {
      if hashed != Ok {
        return hashed, [];
      }
      k := h.of(key);
    }
    if |k| == 0 {
      k := [0];
    }
    return imported, k;
  }

  /** The backend refuses an empty key and one over 8191 bytes; the stored key is neither, for every
      caller's key. */
  lemma StoredKeyImports(h: Hash, key: bytes)
    requires IsHash(h) && h.block <= 8191
    ensures 1 <= |StoredKey(h, key)| <= 8191
  {
  }

  /** For every key, of every length: the MAC under the stored key is HMAC under the caller's key. */
  lemma StoredKeyMacs(h: Hash, key: bytes, m: bytes)
    requires IsHash(h)
    ensures Rfc2104(h, StoredKey(h, key), m) == Rfc2104(h, key, m)
  {
    var reduced := if |key| > h.block then h.of(key) else key;
    if reduced == [] {
      assert [0] + Zeros(h.block - 1) == [] + Zeros(h.block);
    }
    assert BlockKey(h, StoredKey(h, key)) == BlockKey(h, key);
  }

  /** What an HMAC handle computes: the backend's MAC under the stored key. */
  function Mac(h: Hash, stored: bytes): Function
    requires IsHash(h)
  {
    Function(m => Rfc2104(h, stored, m), h.size)
  }

  /** `zuc_hmac_compute`, after its argument checks: import, one MAC, destroy. */
  method HmacCompute(h: Hash, key: bytes, data: bytes, hashed: Status, imported: Status, computed: Status)
    returns (st: Status, out: bytes)
    requires IsHash(h)
    ensures st == if |key| > h.block && hashed != Ok then hashed else if imported != Ok then imported else computed
    ensures st == Ok ==> out == Rfc2104(h, key, data)
  {
    var s, stored := ImportHmacKey(h, key, hashed, imported);
    if s != Ok {
      return s, [];
    }
    StoredKeyMacs(h, key, data);
    return computed, Rfc2104(h, stored, data);
  }

  /** One-shot, incremental in any split, and after a reset: one MAC, and it is RFC 2104's. */
  lemma MacsAgree(h: Hash, key: bytes, before: seq<Call>, parts: seq<bytes>, outSize: nat)
    requires IsHash(h) && outSize >= h.size
    requires before == [] || before[|before| - 1] == Reset(Ok)
    ensures var f := Mac(h, StoredKey(h, key));
            Step(f, After(f, before + Feed(parts)), Finish(false, outSize, Ok)).1 ==
            Reply(Ok, Rfc2104(h, key, Flatten(parts)))
  {
    hide Rfc2104, StoredKey;
    AnySplit(Mac(h, StoredKey(h, key)), before, parts, outSize);
    StoredKeyMacs(h, key, Flatten(parts));
  }
}
