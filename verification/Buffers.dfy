/** Pointers into one address space (src/zuc_util.c): `mem` is the whole memory and a buffer is an
    offset into it, so two buffers may share bytes. */
module Buffers {
  import opened Bytes

  datatype Pointer = Null | At(addr: nat)

  /** Address i is one of the `len` bytes from `p`. */
  predicate Covers(p: Pointer, len: nat, i: nat) {
    p.At? && p.addr <= i < p.addr + len
  }

  /** A C object: a non-null pointer with `len` bytes behind it, none of them past the end of
      memory, so its end address does not wrap. */
  predicate Readable(size: nat, p: Pointer, len: nat) {
    p.At? ==> p.addr + len <= size
  }

  /** A buffer with bytes in it is readable exactly when each of them is in memory. */
  lemma ReadableIff(size: nat, p: Pointer, len: nat)
    requires len > 0
    ensures Readable(size, p, len) <==> forall i: nat :: Covers(p, len, i) ==> i < size
  {
    if p.At? {
      assert Covers(p, len, p.addr + len - 1);
    }
  }

  /** `zuc_int_overlaps` */
  function Overlaps(a: Pointer, b: Pointer, len: nat): bool {
    if a.Null? || b.Null? || len == 0 then false
    else if a == b then false
    else if a.addr < b.addr then a.addr + len > b.addr
    else b.addr + len > a.addr
  }

  /** Refused exactly when the buffers share a byte without being the same buffer. */
  lemma OverlapsIffPartial(a: Pointer, b: Pointer, len: nat)
    ensures Overlaps(a, b, len) <==> a != b && exists i: nat :: Covers(a, len, i) && Covers(b, len, i)
  {
    if Overlaps(a, b, len) {
      var shared := if a.addr < b.addr then b.addr else a.addr;
      assert Covers(a, len, shared) && Covers(b, len, shared);
    }
  }

  /** Memory with `w` written at `at`. */
  function Splice(m: bytes, at: nat, w: bytes): (r: bytes)
    requires at + |w| <= |m|
    ensures |r| == |m|
  {
    m[..at] + w + m[at + |w|..]
  }

  /** What a buffer of `len` bytes holds. */
  function Read(m: bytes, p: Pointer, len: nat): (r: bytes)
    requires p.At? && p.addr + len <= |m|
    ensures |r| == len
  {
    m[p.addr..p.addr + len]
  }

  lemma SpliceAt(m: bytes, at: nat, w: bytes)
    requires at + |w| <= |m|
    ensures forall i :: 0 <= i < |m| ==> Splice(m, at, w)[i] == if at <= i < at + |w| then w[i - at] else m[i]
  {
  }

  /** Two writes next to each other are one write. */
  lemma SpliceTwice(m: bytes, at: nat, a: bytes, b: bytes)
    requires at + |a| + |b| <= |m|
    ensures Splice(Splice(m, at, a), at + |a|, b) == Splice(m, at, a + b)
  {
  }

  /** A write does not change a buffer it has no byte in common with. */
  lemma SpliceElsewhere(m: bytes, at: nat, w: bytes, p: nat, len: nat)
    requires at + |w| <= |m| && p + len <= |m| && (p + len <= at || at + |w| <= p)
    ensures Splice(m, at, w)[p..p + len] == m[p..p + len]
  {
  }

  /** `memcpy` of `w` into a buffer. */
  method Store(mem: array<byte>, at: nat, w: bytes)
    requires at + |w| <= mem.Length
    modifies mem
    ensures mem[..] == Splice(old(mem[..]), at, w)
  {
    var i := 0;
    while i < |w|
      invariant 0 <= i <= |w|
      invariant forall j :: 0 <= j < mem.Length ==>
                              mem[j] == if at <= j < at + i then w[j - at] else old(mem[j])
    {
      mem[at + i] := w[i];
      i := i + 1;
    }
  }

  /** `zuc_secure_zero` */
  method SecureZero(mem: array<byte>, p: Pointer, len: nat)
    requires Readable(mem.Length, p, len)
    modifies mem
    ensures p.Null? ==> mem[..] == old(mem[..])
    ensures p.At? ==> mem[..] == Splice(old(mem[..]), p.addr, Zeros(len))
  {
    if p.Null? || len == 0 {
      if p.At? {
        assert mem[..] == mem[..p.addr] + Zeros(0) + mem[p.addr..];
      }
      return;
    }
    var i := 0;
    while i < len
      invariant 0 <= i <= len
      invariant forall j :: 0 <= j < mem.Length ==>
                              mem[j] == if p.addr <= j < p.addr + i then 0 else old(mem[j])
    {
      mem[p.addr + i] := 0;
      i := i + 1;
    }
  }
}
