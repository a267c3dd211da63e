/** The iterated derivation of tools/zucryptlink/src/link.c, on one reused hash handle. */
module Derive {
  import opened Bytes
  import opened Statuses
  import opened Buffers
  import opened Digest

  /** The four counter bytes: `(i >> 8 * j) & 0xFF` for j = 0..3. */
  function Counter(i: nat): bytes {
    [i % 256, i / 256 % 256, i / 0x1_0000 % 256, i / 0x100_0000 % 256]
  }

  /** The integer a byte string spells, least significant byte first. */
  function LittleEndian(s: bytes): nat {
    if s == [] then 0 else s[0] + 256 * LittleEndian(s[1..])
  }

  /** The counter is the little-endian 32-bit form of i. */
  lemma CounterIsInt32Le(i: nat)
    requires i < 0x1_0000_0000
    ensures |Counter(i)| == 4 && LittleEndian(Counter(i)) == i
  {
    var s := Counter(i);
    var s1, s2, s3 := s[1..], s[2..], s[3..];
    var b1: nat, b2: nat, b3: nat := s[1], s[2], s[3];
    assert s3[1..] == [] && LittleEndian(s3) == b3;
    assert s2[1..] == s3 && LittleEndian(s2) == b2 + 256 * b3;
    assert s1[1..] == s2 && LittleEndian(s1) == b1 + 256 * (b2 + 256 * b3);
    var q := i / 256;
    assert i / 0x1_0000 == q / 256 && i / 0x100_0000 == q / 256 / 256 < 256;
  }

  /** H_0 = H(seed), H_n = H(int32le(n - 1) || H_{n-1}). */
  function Spin(f: Function, seed: bytes, n: nat): bytes {
    if n == 0 then f.of(seed) else f.of(Counter(n - 1) + Spin(f, seed, n - 1))
  }

  /** Any sequence that begins with H(seed) and goes on, at each i, with H of the four bytes that spell i from
      the lowest up, followed by the last value, is the derivation. */
  lemma {:induction false} SpinIsRecursion(f: Function, seed: bytes, n: nat, g: nat -> bytes)
    requires n <= 0x1_0000_0000 && g(0) == f.of(seed)
    requires forall i: nat, c: bytes :: i < n && |c| == 4 && LowFirst(c) == i ==> g(i + 1) == f.of(c + g(i))
    ensures Spin(f, seed, n) == g(n)
  {
    if n > 0 {
      SpinIsRecursion(f, seed, n - 1, g);
      CounterSpells(n - 1);
      assert |Counter(n - 1)| == 4 && LowFirst(Counter(n - 1)) == n - 1;
    }
  }

  /** What four bytes spell, the lowest first. */
  function LowFirst(c: bytes): nat
    requires |c| == 4
  {
    var a: nat, b: nat, d: nat, e: nat := c[0], c[1], c[2], c[3];
    a + 0x100 * b + 0x1_0000 * d + 0x100_0000 * e
  }

  lemma CounterSpells(i: nat)
    requires i < 0x1_0000_0000
    ensures LowFirst(Counter(i)) == i
  {
    var q := i / 256;
    assert i / 0x1_0000 == q / 256 && i / 0x100_0000 == q / 256 / 256 < 256;
  }

  /** The derivation refuses a negative count, R's missing integer among them. */
  datatype Derived = Refused | Failed(st: Status) | Derived(digest: bytes)

  /** A hash whose results have the size of its algorithm, at most ZUC_MAX_DIGEST_SIZE. */
  ghost predicate IsDigest(f: Function) {
    f.size <= MAX_DIGEST && forall m: bytes :: |f.of(m)| == f.size
  }

  /** ZUC_MAX_DIGEST_SIZE, 512 bits: the size of the buffer that every turn reuses. */
  const MAX_DIGEST: nat := 64

  /** `zuc_hash_finish` into the buffer, of which the first `size` bytes are then the digest. */
  method FinishInto(h: Handle, digest: array<byte>, ps: Status) returns (st: Status)
    requires IsDigest(h.f) && digest.Length == MAX_DIGEST
    modifies h, digest
    ensures h.Model() == Step(h.f, old(h.Model()), Finish(false, MAX_DIGEST, ps)).0
    ensures var reply := Step(h.f, old(h.Model()), Finish(false, MAX_DIGEST, ps)).1;
            st == reply.st && (st == Ok ==> digest[..h.f.size] == reply.out)
  {
    var out;
    st, out := h.DoFinish(false, MAX_DIGEST, ps);
    if st == Ok {
      Store(digest, 0, out);
    }
  }

  /** The status of a turn: that of its first call to fail; an empty digest would not be fed. */
  function TurnStatus(f: Function, ps: nat -> Status): Status {
    if ps(0) != Ok then ps(0)
    else if ps(1) != Ok then ps(1)
    else if ps(2) != Ok && f.size > 0 then ps(2)
    else ps(3)
  }

  /** The status after n turns, where `ps(i, j)` answers call j of turn i and turn 0 is the seed. */
  function SpinStatus(f: Function, seed: bytes, ps: (nat, nat) -> Status, n: nat): Status {
    if n == 0 then (if ps(0, 0) != Ok && seed != [] then ps(0, 0) else ps(0, 1))
    else if SpinStatus(f, seed, ps, n - 1) != Ok then SpinStatus(f, seed, ps, n - 1)
    else TurnStatus(f, (j: nat) => ps(n, j))
  }

  /** It goes well exactly when every call of every turn does: seed and finish, and then reset, counter, digest
      and finish. */
  lemma {:induction false} SpinOkIff(f: Function, seed: bytes, ps: (nat, nat) -> Status, n: nat)
    ensures SpinStatus(f, seed, ps, n) == Ok <==>
            && (seed == [] || ps(0, 0) == Ok) && ps(0, 1) == Ok
            && forall i: nat :: 1 <= i <= n ==> ps(i, 0) == Ok && ps(i, 1) == Ok && (f.size == 0 || ps(i, 2) == Ok) && ps(i, 3) == Ok
  {
    if n > 0 {
      SpinOkIff(f, seed, ps, n - 1);
    }
  }

  /** Once a turn fails, that is how the derivation ends. */
  lemma {:induction false} SpinStops(f: Function, seed: bytes, ps: (nat, nat) -> Status, i: nat, n: nat)
    requires i <= n && SpinStatus(f, seed, ps, i) != Ok
    ensures SpinStatus(f, seed, ps, n) == SpinStatus(f, seed, ps, i)
  {
    if i < n {
      SpinStops(f, seed, ps, i, n - 1);
    }
  }

  /** The seed, on the new handle. */
  method HashSeed(h: Handle, seed: bytes, digest: array<byte>, ps: (nat, nat) -> Status) returns (st: Status)
    requires IsDigest(h.f) && digest.Length == MAX_DIGEST && h.Model() == FRESH
    modifies h, digest
    ensures h.f.size <= MAX_DIGEST
    ensures st == SpinStatus(h.f, seed, ps, 0) && (st == Ok ==> digest[..h.f.size] == Spin(h.f, seed, 0))
  {
    st := h.DoUpdate(Given(seed), ps(0, 0));
    if st == Ok {
      assert [] + seed == seed;
      st := FinishInto(h, digest, ps(0, 1));
    }
  }

  /** One turn: reset, the counter, the first `size` bytes of the buffer, and finish into it. `ps(j)`
      answers call j. */
  method Turn(h: Handle, i: nat, digest: array<byte>, ps: nat -> Status) returns (st: Status)
    requires IsDigest(h.f) && digest.Length == MAX_DIGEST
    modifies h, digest
    ensures st == Ok ==> digest[..h.f.size] == h.f.of(Counter(i) + old(digest[..h.f.size]))
    ensures st == TurnStatus(h.f, ps)
  {
    var last := digest[..h.f.size];
    st := h.DoReset(ps(0));
    if st == Ok {
      st := h.DoUpdate(Given(Counter(i)), ps(1));
    }
    if st == Ok {
      assert h.Model() == State(true, Absorbing([] + Counter(i)));
      st := h.DoUpdate(Given(last), ps(2));
    }
    if st == Ok {
      assert last == [] ==> Counter(i) + last == Counter(i);
      assert h.Model() == State(true, Absorbing([] + Counter(i) + last));
      assert [] + Counter(i) == Counter(i);
      st := FinishInto(h, digest, ps(3));
    }
  }

  /** `zl_derive`: `created` is what `zuc_hash_new` returned. For every seed and every count the result
      is the recursion, or the status of the first step to fail; and its digest buffer is wiped. */
  method ZlDerive(f: Function, seed: bytes, spins: int, created: Status, ps: (nat, nat) -> Status, digest: array<byte>)
    returns (r: Derived)
    requires IsDigest(f) && digest.Length == 64
    requires -0x8000_0000 <= spins < 0x8000_0000
    modifies digest
    ensures r == if spins < 0 then Refused
                 else if created != Ok then Failed(created)
                 else if SpinStatus(f, seed, ps, spins) != Ok then Failed(SpinStatus(f, seed, ps, spins))
                 else Derived(Spin(f, seed, spins))
    ensures spins >= 0 ==> forall i :: 0 <= i < 64 ==> digest[i] == 0
  {
    if spins < 0 {
      return Refused;
    }
    r := Failed(created);
    if created == Ok {
      r := RunDerive(f, seed, spins, ps, digest);
    }
    SecureZero(digest, At(0), MAX_DIGEST);
  }

  /** The derivation on its new handle. */
  method RunDerive(f: Function, seed: bytes, spins: nat, ps: (nat, nat) -> Status, digest: array<byte>) returns (r: Derived)
    requires IsDigest(f) && digest.Length == MAX_DIGEST
    modifies digest
    ensures r == if SpinStatus(f, seed, ps, spins) != Ok then Failed(SpinStatus(f, seed, ps, spins)) else Derived(Spin(f, seed, spins))
  {
    hide IsDigest, TurnStatus;
    var h := new Handle(f);
    var st := HashSeed(h, seed, digest, ps);
    var i: nat := 0;
    while i < spins && st == Ok
      invariant 0 <= i <= spins
      invariant h.f == f && fresh(h) && f.size <= MAX_DIGEST
      invariant st == SpinStatus(f, seed, ps, i) && (st == Ok ==> digest[..f.size] == Spin(f, seed, i))
    {
      st := Turn(h, i, digest, (j: nat) => ps(i + 1, j));
      i := i + 1;
    }
    if st != Ok {
      SpinStops(f, seed, ps, i, spins);
      return Failed(st);
    }
    return Derived(digest[..f.size]);
  }
}
