/** The AES-CBC handle of src/zuc_aes.c, on real memory: input and output may be the same buffer. */
module Aes {
  import opened Bytes
  import opened BitXor
  import opened Options
  import opened Statuses
  import opened Buffers
  import opened Cbc

  /** What one backend pass does. A failing pass may leave anything in the output buffer. */
  datatype Pass =
    | Completes
    | SetupFails(ps: Status)
    | UpdateFails(ps: Status, left: bytes)
    | FinishFails(ps: Status, left: bytes)
    | Miscounts(produced: nat, finished: nat, left: bytes)

  predicate Possible(pass: Pass, len: nat) {
    match pass
    case Completes => true
    case SetupFails(ps) => ps != Ok
    case UpdateFails(ps, left) => ps != Ok && |left| == len
    case FinishFails(ps, left) => ps != Ok && |left| == len
    case Miscounts(produced, finished, left) => produced + finished != len && |left| == len
  }

  /** The status a pass ends with. */
  function PassStatus(pass: Pass): Status {
    match pass
    case Completes => Ok
    case SetupFails(ps) => ps
    case UpdateFails(ps, _) => ps
    case FinishFails(ps, _) => ps
    case Miscounts(_, _, _) => Internal
  }

  /** What a pass may do: a step fails with a status of its own, or all steps succeed and the byte count is wrong;
      what is left in the output fills it. */
  lemma PossibleExactly(ps: Status, left: bytes, produced: nat, finished: nat, len: nat)
    ensures Possible(Completes, len) && (Possible(SetupFails(ps), len) <==> ps != Ok)
    ensures Possible(UpdateFails(ps, left), len) <==> ps != Ok && |left| == len
    ensures Possible(FinishFails(ps, left), len) <==> ps != Ok && |left| == len
    ensures Possible(Miscounts(produced, finished, left), len) <==> produced + finished != len && |left| == len
  {
  }

  /** The placements that are accepted: the same buffer, or no shared byte. */
  predicate Apart(a: nat, b: nat, len: nat) {
    a == b || a + len <= b || b + len <= a
  }

  /** How far a pass has got: `done` is at the start of the output, the input not yet read is
      still there, and nothing outside the output has changed. */
  ghost predicate Progress(start: bytes, m: bytes, inp: nat, outp: nat, len: nat, done: bytes) {
    && |m| == |start| && inp + len <= |m| && outp + len <= |m| && |done| <= len
    && (forall j :: outp <= j < outp + |done| ==> m[j] == done[j - outp])
    && (forall j :: inp + |done| <= j < inp + len ==> m[j] == start[j])
    && (forall j :: 0 <= j < |m| && !(outp <= j < outp + len) ==> m[j] == start[j])
  }

  lemma ProgressStep(start: bytes, m: bytes, inp: nat, outp: nat, len: nat, done: bytes, w: bytes)
    requires Apart(inp, outp, len) && Progress(start, m, inp, outp, len, done) && |done| + |w| <= len
    ensures Progress(start, Splice(m, outp + |done|, w), inp, outp, len, done + w)
  {
    hide Splice;
    SpliceAt(m, outp + |done|, w);
  }

  lemma PassStarts(c: Cipher, k: bytes, iv: bytes, start: bytes, inp: nat, outp: nat, len: nat)
    requires IsBlockCipher(c) && |iv| == BLOCK && inp + len <= |start| && outp + len <= |start|
    ensures Encrypt(c, k, iv, []) == [] && Decrypt(c, k, iv, []) == []
    ensures Progress(start, start, inp, outp, len, []) && Whole(0)
  {
  }

  /** The next block of input, before and during the pass. */
  lemma ProgressReads(start: bytes, m: bytes, inp: nat, outp: nat, len: nat, done: bytes, src: bytes, n: nat)
    requires Progress(start, m, inp, outp, len, done) && src == start[inp..inp + len] && |done| + n <= len
    ensures m[inp + |done|..inp + |done| + n] == src[|done|..|done| + n]
  {
    var a, b := m[inp + |done|..inp + |done| + n], src[|done|..|done| + n];
    forall j | 0 <= j < n ensures a[j] == b[j] {
      assert a[j] == m[inp + |done| + j] == start[inp + |done| + j];
    }
  }

  lemma ProgressEnds(start: bytes, m: bytes, inp: nat, outp: nat, len: nat, done: bytes)
    requires Progress(start, m, inp, outp, len, done) && |done| == len
    ensures m == Splice(start, outp, done)
  {
    hide Splice;
    SpliceAt(start, outp, done);
  }

  lemma NextBlockEncrypts(c: Cipher, k: bytes, iv: bytes, src: bytes, i: nat, chain: bytes)
    requires IsBlockCipher(c) && |iv| == BLOCK && Whole(i) && i + BLOCK <= |src|
    requires chain == Chain(iv, Encrypt(c, k, iv, src[..i]))
    ensures var b := c.enc(k, Xor(src[i..i + BLOCK], chain));
            && Encrypt(c, k, iv, src[..i + BLOCK]) == Encrypt(c, k, iv, src[..i]) + b
            && Chain(iv, Encrypt(c, k, iv, src[..i + BLOCK])) == b
  {
    var block := src[i..i + BLOCK];
    assert src[..i + BLOCK] == src[..i] + block;
    EncryptAppend(c, k, iv, src[..i], block);
    OneBlock(c, k, chain, block);
  }

  lemma BlockSizes(c: Cipher, k: bytes, block: bytes, chain: bytes)
    requires IsBlockCipher(c) && |block| == BLOCK && |chain| == BLOCK
    ensures |c.enc(k, Xor(block, chain))| == BLOCK && |c.dec(k, block)| == BLOCK
  {
  }

  lemma OneBlock(c: Cipher, k: bytes, iv: bytes, block: bytes)
    requires IsBlockCipher(c) && |iv| == BLOCK && |block| == BLOCK
    ensures Encrypt(c, k, iv, block) == c.enc(k, Xor(block, iv))
    ensures Decrypt(c, k, iv, block) == Xor(c.dec(k, block), iv)
  {
    assert block[..BLOCK] == block && block[BLOCK..] == [];
  }

  lemma NextBlockDecrypts(c: Cipher, k: bytes, iv: bytes, src: bytes, i: nat, chain: bytes)
    requires IsBlockCipher(c) && |iv| == BLOCK && Whole(i) && i + BLOCK <= |src|
    requires chain == Chain(iv, src[..i])
    ensures var b := Xor(c.dec(k, src[i..i + BLOCK]), chain);
            && Decrypt(c, k, iv, src[..i + BLOCK]) == Decrypt(c, k, iv, src[..i]) + b
            && Chain(iv, src[..i + BLOCK]) == src[i..i + BLOCK]
  {
    var block := src[i..i + BLOCK];
    assert src[..i + BLOCK] == src[..i] + block;
    DecryptAppend(c, k, iv, src[..i], block);
    OneBlock(c, k, chain, block);
  }

  /** The backend's encrypting pass, block by block in memory. */
  method EncryptPass(c: Cipher, k: bytes, iv: bytes, mem: array<byte>, inp: nat, len: nat, outp: nat)
    requires IsBlockCipher(c) && |iv| == BLOCK && Whole(len)
    requires Apart(inp, outp, len) && inp + len <= mem.Length && outp + len <= mem.Length
    modifies mem
    ensures mem[..] == Splice(old(mem[..]), outp, Encrypt(c, k, iv, old(mem[inp..inp + len])))
  {
    hide Progress, Encrypt, Splice, Xor, IsBlockCipher, Whole;
    ghost var start, src := mem[..], mem[inp..inp + len];
    ghost var done: bytes := [];
    var prev, i := iv, 0;
    PassStarts(c, k, iv, start, inp, outp, len);
    assert src[..0] == [];
    while i < len
      invariant 0 <= i <= len && Whole(i)
      invariant done == Encrypt(c, k, iv, src[..i]) && prev == Chain(iv, done)
      invariant Progress(start, mem[..], inp, outp, len, done)
    {
      WholeStep(i, len);
      ProgressReads(start, mem[..], inp, outp, len, done, src, BLOCK);
      var block := mem[inp + i..inp + i + BLOCK];
      BlockSizes(c, k, block, prev);
      NextBlockEncrypts(c, k, iv, src, i, prev);
      prev := c.enc(k, Xor(block, prev));
      ProgressStep(start, mem[..], inp, outp, len, done, prev);
      Store(mem, outp + i, prev);
      done := done + prev;
      i := i + BLOCK;
    }
    assert src[..i] == src;
    ProgressEnds(start, mem[..], inp, outp, len, done);
  }

  /** The backend's decrypting pass; each ciphertext block is saved before it can be overwritten. */
  method DecryptPass(c: Cipher, k: bytes, iv: bytes, mem: array<byte>, inp: nat, len: nat, outp: nat)
    requires IsBlockCipher(c) && |iv| == BLOCK && Whole(len)
    requires Apart(inp, outp, len) && inp + len <= mem.Length && outp + len <= mem.Length
    modifies mem
    ensures mem[..] == Splice(old(mem[..]), outp, Decrypt(c, k, iv, old(mem[inp..inp + len])))
  {
    hide Progress, Decrypt, Splice, Xor, IsBlockCipher, Whole;
    ghost var start, src := mem[..], mem[inp..inp + len];
    ghost var done: bytes := [];
    var prev, i := iv, 0;
    PassStarts(c, k, iv, start, inp, outp, len);
    assert src[..0] == [];
    while i < len
      invariant 0 <= i <= len && Whole(i)
      invariant done == Decrypt(c, k, iv, src[..i]) && prev == Chain(iv, src[..i])
      invariant Progress(start, mem[..], inp, outp, len, done)
    {
      WholeStep(i, len);
      ProgressReads(start, mem[..], inp, outp, len, done, src, BLOCK);
      var block := mem[inp + i..inp + i + BLOCK];
      BlockSizes(c, k, block, prev);
      NextBlockDecrypts(c, k, iv, src, i, prev);
      var plain := Xor(c.dec(k, block), prev);
      ProgressStep(start, mem[..], inp, outp, len, done, plain);
      Store(mem, outp + i, plain);
      done := done + plain;
      prev, i := block, i + BLOCK;
    }
    assert src[..i] == src;
    ProgressEnds(start, mem[..], inp, outp, len, done);
  }

  /** `check_block_args` */
  function CheckBlockArgs(ready: bool, inp: Pointer, len: nat, outp: Pointer): Status {
    if !ready then NotReady
    else if len == 0 then Ok
    else if inp.Null? || outp.Null? then InvalidArgument
    else if len % BLOCK != 0 then BadLength
    else if Overlaps(inp, outp, len) then Overlap
    else Ok
  }

  /** `cipher_run`: one pass from an explicit chaining value. */
  method CipherRun(c: Cipher, k: bytes, encrypt: bool, iv: bytes, mem: array<byte>,
                   inp: nat, len: nat, outp: nat, pass: Pass)
    returns (st: Status)
    requires IsBlockCipher(c) && |iv| == BLOCK && Whole(len) && Possible(pass, len)
    requires Apart(inp, outp, len) && inp + len <= mem.Length && outp + len <= mem.Length
    modifies mem
    ensures st == PassStatus(pass) && (st == Ok <==> pass.Completes?)
    ensures pass.Miscounts? ==> st == Internal
    ensures pass.SetupFails? || pass.UpdateFails? || pass.FinishFails? ==> st == pass.ps
    ensures st == Ok ==> mem[..] == Splice(old(mem[..]), outp, OnePass(c, k, encrypt, iv, old(mem[inp..inp + len])))
    ensures st != Ok ==> OnlyOutput(old(mem[..]), mem[..], outp, len)
    ensures pass.SetupFails? ==> mem[..] == old(mem[..])
    ensures pass.UpdateFails? || pass.FinishFails? || pass.Miscounts? ==> mem[..] == Splice(old(mem[..]), outp, pass.left)
  {
    hide Encrypt, Decrypt, Whole, Splice, IsBlockCipher;
    match pass {
      case SetupFails(ps) =>
        return ps;
      case UpdateFails(ps, left) =>
        StoreIsOnlyOutput(mem[..], outp, left);
        Store(mem, outp, left);
        return ps;
      case FinishFails(ps, left) =>
        StoreIsOnlyOutput(mem[..], outp, left);
        Store(mem, outp, left);
        return ps;
      case Miscounts(_, _, left) =>
        StoreIsOnlyOutput(mem[..], outp, left);
        Store(mem, outp, left);
        return Internal;
      case Completes =>
        if encrypt {
          EncryptPass(c, k, iv, mem, inp, len, outp);
        } else {
          DecryptPass(c, k, iv, mem, inp, len, outp);
        }
        return Ok;
    }
  }

  function OnePass(c: Cipher, k: bytes, encrypt: bool, iv: bytes, m: bytes): (r: bytes)
    requires IsBlockCipher(c) && |iv| == BLOCK && Whole(|m|)
    ensures |r| == |m|
  {
    if encrypt then Encrypt(c, k, iv, m) else Decrypt(c, k, iv, m)
  }

  /** Nothing outside the output buffer has changed. */
  ghost predicate OnlyOutput(before: bytes, after: bytes, outp: nat, len: nat) {
    && |after| == |before| && outp + len <= |before|
    && after[..outp] == before[..outp] && after[outp + len..] == before[outp + len..]
  }

  lemma StoreIsOnlyOutput(m: bytes, outp: nat, w: bytes)
    requires outp + |w| <= |m|
    ensures OnlyOutput(m, Splice(m, outp, w), outp, |w|)
  {
  }

  lemma OnlyOutputByByte(before: bytes, after: bytes, outp: nat, len: nat)
    requires OnlyOutput(before, after, outp, len)
    ensures forall i :: 0 <= i < |before| && !(outp <= i < outp + len) ==> after[i] == before[i]
  {
    forall i | 0 <= i < |before| && !(outp <= i < outp + len) ensures after[i] == before[i] {
      if i < outp {
        assert after[i] == after[..outp][i];
      } else {
        assert after[i] == after[outp + len..][i - outp - len];
      }
    }
  }

  /** The ciphertext of a call, whichever way it went: the next chaining value is its last block. */
  function Ciphertext(c: Cipher, k: bytes, encrypt: bool, iv: bytes, m: bytes): bytes
    requires IsBlockCipher(c) && |iv| == BLOCK && Whole(|m|)
  {
    if encrypt then Encrypt(c, k, iv, m) else m
  }

  class Handle {
    const cipher: Cipher
    const key: bytes
    var chain: bytes

    ghost predicate Valid()
      reads this
    {
      IsBlockCipher(cipher) && |chain| == BLOCK
    }

    /** What `zuc_aes_new` leaves: the imported key and a zeroed chaining value. */
    constructor (cipher: Cipher, key: bytes)
      requires IsBlockCipher(cipher)
      ensures Valid() && this.cipher == cipher && this.key == key && chain == Zeros(BLOCK)
    {
      this.cipher, this.key, chain := cipher, key, Zeros(BLOCK);
    }

    /** `zuc_aes_cbc_set_state` */
    method SetState(state: Option<bytes>) returns (st: Status)
      requires Valid() && (state.Some? ==> |state.value| == BLOCK)
      modifies this`chain
      ensures Valid() && st == if state.None? then InvalidArgument else Ok
      ensures chain == if state.None? then old(chain) else state.value
    {
      if state.None? {
        return InvalidArgument;
      }
      chain := state.value;
      return Ok;
    }

    /** `zuc_aes_cbc_encrypt` */
    method CbcEncrypt(mem: array<byte>, inp: Pointer, len: nat, outp: Pointer, ready: bool, pass: Pass)
      returns (st: Status)
      requires Valid() && Possible(pass, len)
      requires Readable(mem.Length, inp, len) && Readable(mem.Length, outp, len)
      modifies this`chain, mem
      ensures Valid() && Outcome(true, old(chain), old(mem[..]), inp, len, outp, ready, pass, st, chain, mem[..])
    {
      hide Encrypt, Decrypt, Splice, Overlaps, Whole, Chain, IsBlockCipher;
      st := CheckBlockArgs(ready, inp, len, outp);
      if st != Ok || len == 0 {
        return;
      }
      ArgsAccepted(ready, inp, len, outp);
      ghost var iv, before, input := chain, mem[..], mem[inp.addr..inp.addr + len];
      st := CipherRun(cipher, key, true, chain, mem, inp.addr, len, outp.addr, pass);
      if st != Ok {
        return;
      }
      LastBlock(iv, before, outp.addr, Encrypt(cipher, key, iv, input));
      chain := mem[outp.addr + len - BLOCK..outp.addr + len];
    }

    /** `zuc_aes_cbc_decrypt`: the last ciphertext block is saved before the pass can overwrite it. */
    method CbcDecrypt(mem: array<byte>, inp: Pointer, len: nat, outp: Pointer, ready: bool, pass: Pass)
      returns (st: Status)
      requires Valid() && Possible(pass, len)
      requires Readable(mem.Length, inp, len) && Readable(mem.Length, outp, len)
      modifies this`chain, mem
      ensures Valid() && Outcome(false, old(chain), old(mem[..]), inp, len, outp, ready, pass, st, chain, mem[..])
    {
      hide Encrypt, Decrypt, Splice, Overlaps, Whole, Chain, IsBlockCipher;
      st := CheckBlockArgs(ready, inp, len, outp);
      if st != Ok || len == 0 {
        return;
      }
      ArgsAccepted(ready, inp, len, outp);
      ghost var input := mem[inp.addr..inp.addr + len];
      var next := mem[inp.addr + len - BLOCK..inp.addr + len];
      ChainOfInput(chain, mem[..], inp.addr, len);
      st := CipherRun(cipher, key, false, chain, mem, inp.addr, len, outp.addr, pass);
      if st != Ok {
        return;
      }
      chain := next;
    }

    /** One call. A refused call changes nothing; a failed pass touches only the output buffer and
        keeps the chaining value; a completed one has run CBC over the input as it was before the
        call, in either placement, and chains on the last ciphertext block. */
    ghost predicate Outcome(encrypt: bool, iv: bytes, before: bytes, inp: Pointer, len: nat, outp: Pointer,
                            ready: bool, pass: Pass, st: Status, next: bytes, after: bytes)
      requires IsBlockCipher(cipher) && |iv| == BLOCK
      requires Readable(|before|, inp, len) && Readable(|before|, outp, len)
    {
      var check := CheckBlockArgs(ready, inp, len, outp);
      if check != Ok || len == 0 then st == check && next == iv && after == before
      else if !pass.Completes? then st == PassStatus(pass) && st != Ok && next == iv && OnlyOutput(before, after, outp.addr, len)
      else
        var input := Buffers.Read(before, inp, len);
        && st == Ok
        && after == Splice(before, outp.addr, OnePass(cipher, key, encrypt, iv, input))
        && next == Chain(iv, Ciphertext(cipher, key, encrypt, iv, input))
    }
  }

  /** Exactly which calls reach the backend. */
  lemma ArgsAccepted(ready: bool, inp: Pointer, len: nat, outp: Pointer)
    ensures CheckBlockArgs(ready, inp, len, outp) == Ok && len > 0 <==>
            ready && len >= BLOCK && Whole(len) && inp.At? && outp.At? && Apart(inp.addr, outp.addr, len)
  {
  }

  /** Which call is refused with which status: buffers that differ and share a byte are an overlap. */
  lemma BlockArgsExactly(ready: bool, inp: Pointer, len: nat, outp: Pointer)
    ensures var st := CheckBlockArgs(ready, inp, len, outp);
            var given := ready && len > 0 && inp.At? && outp.At?;
            && (st == NotReady <==> !ready)
            && (st == InvalidArgument <==> ready && len > 0 && (inp.Null? || outp.Null?))
            && (st == BadLength <==> given && len % 16 != 0)
            && (st == Overlap <==> given && len % 16 == 0 && inp.addr != outp.addr
                                   && inp.addr < outp.addr + len && outp.addr < inp.addr + len)
            && st in {Ok, NotReady, InvalidArgument, BadLength, Overlap}
  {
  }

  lemma ChainOfInput(iv: bytes, m: bytes, at: nat, len: nat)
    requires at + len <= |m| && len >= BLOCK && |iv| == BLOCK
    ensures m[at + len - BLOCK..at + len] == Chain(iv, m[at..at + len])
  {
    assert m[at + len - BLOCK..at + len] == m[at..at + len][len - BLOCK..];
  }

  /** The last block of what was just written is the next chaining value. */
  lemma LastBlock(iv: bytes, m: bytes, at: nat, w: bytes)
    requires at + |w| <= |m| && |w| >= BLOCK && |iv| == BLOCK
    ensures Splice(m, at, w)[at + |w| - BLOCK..at + |w|] == Chain(iv, w)
  {
    var m' := Splice(m, at, w);
    assert m'[at..at + |w|] == w;
    assert m'[at + |w| - BLOCK..at + |w|] == m'[at..at + |w|][|w| - BLOCK..];
  }

  // --- whole runs -------------------------------------------------------

  lemma OnePassAppend(c: Cipher, k: bytes, encrypt: bool, iv: bytes, a: bytes, b: bytes)
    requires IsBlockCipher(c) && |iv| == BLOCK && Whole(|a|) && Whole(|b|)
    ensures Whole(|a + b|)
    ensures OnePass(c, k, encrypt, iv, a + b) ==
            OnePass(c, k, encrypt, iv, a) + OnePass(c, k, encrypt, Chain(iv, Ciphertext(c, k, encrypt, iv, a)), b)
  {
    hide Encrypt, Decrypt, Chain;
    if encrypt {
      EncryptAppend(c, k, iv, a, b);
    } else {
      DecryptAppend(c, k, iv, a, b);
    }
  }

  lemma ChainTwice(iv: bytes, a: bytes, b: bytes)
    requires |iv| == BLOCK && Whole(|a|) && Whole(|b|)
    ensures Chain(Chain(iv, a), b) == Chain(iv, a + b)
  {
    if b == [] {
      assert a + b == a;
    } else {
      assert |b| >= BLOCK;
      assert (a + b)[|a + b| - BLOCK..] == b[|b| - BLOCK..];
    }
  }

  lemma ChainOfNothing(iv: bytes)
    requires |iv| == BLOCK
    ensures Chain(iv, []) == iv
  {
  }

  lemma EmptyPass(c: Cipher, k: bytes, encrypt: bool, iv: bytes)
    requires IsBlockCipher(c) && |iv| == BLOCK
    ensures Whole(0) && OnePass(c, k, encrypt, iv, []) == []
  {
  }

  /** One call as it happened: memory before and after it, its arguments, and the status and the
      chaining value it left. Between calls the caller may do what it likes to memory. */
  datatype Event = Event(before: bytes, inp: Pointer, len: nat, outp: Pointer, ready: bool, pass: Pass,
                         st: Status, next: bytes, after: bytes)

  /** Calls on one handle, in one direction, each from the chaining value the last one left. */
  ghost predicate Happened(h: Handle, encrypt: bool, iv: bytes, events: seq<Event>)
    requires IsBlockCipher(h.cipher)
    decreases |events|
  {
    |iv| == BLOCK &&
    (events == [] ||
     var e := events[0];
     && Readable(|e.before|, e.inp, e.len) && Readable(|e.before|, e.outp, e.len)
     && h.Outcome(encrypt, iv, e.before, e.inp, e.len, e.outp, e.ready, e.pass, e.st, e.next, e.after)
     && Happened(h, encrypt, e.next, events[1..]))
  }

  ghost predicate Succeeded(e: Event) {
    e.st == Ok && e.len > 0 && e.inp.At? && e.outp.At? && e.inp.addr + e.len <= |e.before| && e.outp.addr + e.len <= |e.after|
  }

  /** The inputs of the successful calls, one after the other. */
  ghost function InputsOf(events: seq<Event>): bytes {
    if events == [] then []
    else (if Succeeded(events[0]) then Buffers.Read(events[0].before, events[0].inp, events[0].len) else [])
         + InputsOf(events[1..])
  }

  /** What the output buffers of the successful calls hold after them. */
  ghost function OutputsOf(events: seq<Event>): bytes {
    if events == [] then []
    else (if Succeeded(events[0]) then Buffers.Read(events[0].after, events[0].outp, events[0].len) else [])
         + OutputsOf(events[1..])
  }

  /** What one call did, read off its contract. */
  lemma OneCall(h: Handle, encrypt: bool, iv: bytes, e: Event)
    requires IsBlockCipher(h.cipher) && |iv| == BLOCK
    requires Readable(|e.before|, e.inp, e.len) && Readable(|e.before|, e.outp, e.len)
    requires h.Outcome(encrypt, iv, e.before, e.inp, e.len, e.outp, e.ready, e.pass, e.st, e.next, e.after)
    ensures |e.next| == BLOCK && |e.after| == |e.before|
    ensures e.st != Ok || e.len == 0 ==> e.next == iv
    ensures forall i :: 0 <= i < |e.before| && !(e.outp.At? && e.outp.addr <= i < e.outp.addr + e.len) ==> e.after[i] == e.before[i]
    ensures !e.ready || e.inp.Null? || e.outp.Null? || e.len % 16 != 0 ==> e.after == e.before
    ensures !Succeeded(e) ==> e.next == iv
    ensures Succeeded(e) ==>
              var input := Buffers.Read(e.before, e.inp, e.len);
              && Whole(e.len)
              && Buffers.Read(e.after, e.outp, e.len) == OnePass(h.cipher, h.key, encrypt, iv, input)
              && e.next == Chain(iv, Ciphertext(h.cipher, h.key, encrypt, iv, input))
  {
    hide OnePass, Ciphertext, Chain;
    if CheckBlockArgs(e.ready, e.inp, e.len, e.outp) == Ok && e.len > 0 && !e.pass.Completes? {
      OnlyOutputByByte(e.before, e.after, e.outp.addr, e.len);
    }
    if CheckBlockArgs(e.ready, e.inp, e.len, e.outp) == Ok && e.len > 0 && e.pass.Completes? {
      var input := Buffers.Read(e.before, e.inp, e.len);
      var w := OnePass(h.cipher, h.key, encrypt, iv, input);
      assert e.after == Splice(e.before, e.outp.addr, w);
      assert e.after[e.outp.addr..e.outp.addr + e.len] == w;
    }
  }

  /** Over every run of calls on a handle, in every accepted placement and with any refused or failed
      calls in between, the output buffers together hold one CBC pass over all the inputs. */
  lemma {:induction false} HandleIsOnePass(h: Handle, encrypt: bool, iv: bytes, events: seq<Event>)
    requires IsBlockCipher(h.cipher) && Happened(h, encrypt, iv, events)
    ensures |iv| == BLOCK && Whole(|InputsOf(events)|)
    ensures OutputsOf(events) == OnePass(h.cipher, h.key, encrypt, iv, InputsOf(events))
    decreases |events|
  {
    hide OnePass, Ciphertext, Chain, Whole, Buffers.Read;
    var c, k := h.cipher, h.key;
    EmptyPass(c, k, encrypt, iv);
    if events != [] {
      var e := events[0];
      OneCall(h, encrypt, iv, e);
      HandleIsOnePass(h, encrypt, e.next, events[1..]);
      if Succeeded(e) {
        OnePassAppend(c, k, encrypt, iv, Buffers.Read(e.before, e.inp, e.len), InputsOf(events[1..]));
      } else {
        assert InputsOf(events) == InputsOf(events[1..]) && OutputsOf(events) == OutputsOf(events[1..]);
      }
    }
  }

  /** The chaining value a run leaves behind. */
  ghost function ChainAfter(iv: bytes, events: seq<Event>): bytes
    decreases |events|
  {
    if events == [] then iv else ChainAfter(events[0].next, events[1..])
  }

  /** In both directions that is the last ciphertext block of the whole run. */
  lemma {:induction false} HandleChains(h: Handle, encrypt: bool, iv: bytes, events: seq<Event>)
    requires IsBlockCipher(h.cipher) && Happened(h, encrypt, iv, events)
    ensures |iv| == BLOCK && Whole(|InputsOf(events)|)
    ensures ChainAfter(iv, events) == Chain(iv, Ciphertext(h.cipher, h.key, encrypt, iv, InputsOf(events)))
    decreases |events|
  {
    hide Encrypt, Chain, Whole, Buffers.Read;
    var c, k := h.cipher, h.key;
    HandleIsOnePass(h, encrypt, iv, events);
    EmptyPass(c, k, true, iv);
    ChainOfNothing(iv);
    if events != [] {
      var e, rest := events[0], InputsOf(events[1..]);
      OneCall(h, encrypt, iv, e);
      HandleChains(h, encrypt, e.next, events[1..]);
      if Succeeded(e) {
        var a := Buffers.Read(e.before, e.inp, e.len);
        ChainTwice(iv, Ciphertext(c, k, encrypt, iv, a), Ciphertext(c, k, encrypt, e.next, rest));
        OnePassAppend(c, k, true, iv, a, rest);
      } else {
        assert InputsOf(events) == rest;
      }
    }
  }

  /** Decrypting what a run of encrypting calls wrote, cut into calls in any other way, returns what
      was encrypted. */
  lemma AnyPartitionInverts(h: Handle, g: Handle, iv: bytes, encrypted: seq<Event>, decrypted: seq<Event>)
    requires IsBlockCipher(h.cipher) && g.cipher == h.cipher && g.key == h.key
    requires Happened(h, true, iv, encrypted) && Happened(g, false, iv, decrypted)
    requires InputsOf(decrypted) == OutputsOf(encrypted)
    ensures OutputsOf(decrypted) == InputsOf(encrypted)
  {
    hide Encrypt, Decrypt, Happened, InputsOf, OutputsOf;
    HandleIsOnePass(h, true, iv, encrypted);
    HandleIsOnePass(g, false, iv, decrypted);
    DecryptEncrypt(h.cipher, h.key, iv, InputsOf(encrypted));
  }
}
