/** Authenticated encryption in src/zuc_aead.c, on real memory. The key, the nonce and the associated
    data are read before anything is written, so they are values; input, output and tag are buffers. */
module Aead {
  import opened Bytes
  import opened Statuses
  import opened Buffers
  import opened Digest

  const NONCE_SIZE: nat := 12
  const TAG_SIZE: nat := 16

  /** An AEAD algorithm, passed in: key, nonce, associated data, text. */
  datatype Algorithm = Algorithm(
    enc: (bytes, bytes, bytes, bytes) -> bytes,
    dec: (bytes, bytes, bytes, bytes) -> bytes,
    tag: (bytes, bytes, bytes, bytes) -> bytes)

  /** Section 2.2 of RFC 5116 for a stream mode: the two directions undo each other and keep the
      length, and the tag is a function of the ciphertext and the rest. */
  ghost predicate IsAead(a: Algorithm) {
    && (forall k: bytes, n: bytes, ad: bytes, p: bytes :: |a.enc(k, n, ad, p)| == |p|)
    && (forall k: bytes, n: bytes, ad: bytes, c: bytes :: |a.dec(k, n, ad, c)| == |c|)
    && (forall k: bytes, n: bytes, ad: bytes, p: bytes :: a.dec(k, n, ad, a.enc(k, n, ad, p)) == p)
    && (forall k: bytes, n: bytes, ad: bytes, c: bytes :: a.enc(k, n, ad, a.dec(k, n, ad, c)) == c)
    && (forall k: bytes, n: bytes, ad: bytes, c: bytes :: |a.tag(k, n, ad, c)| == TAG_SIZE)
  }

  /** How the backend's steps go. `left` is what a failing step leaves in the output, `leftTag` what
      it leaves in the tag when encrypting. */
  datatype Run =
    | Runs
    | FailsBefore(ps: Status)
    | FailsUpdate(ps: Status, left: bytes)
    | FailsLast(ps: Status, left: bytes, leftTag: bytes)
    | Miscounts(left: bytes, leftTag: bytes)

  predicate PossibleRun(run: Run, len: nat) {
    match run
    case Runs => true
    case FailsBefore(ps) => ps != Ok
    case FailsUpdate(ps, left) => ps != Ok && |left| == len
    case FailsLast(ps, left, leftTag) => ps != Ok && |left| == len && |leftTag| == TAG_SIZE
    case Miscounts(left, leftTag) => |left| == len && |leftTag| == TAG_SIZE
  }

  /** What a pass may do: it goes through, a step fails with a status of its own, or a count is wrong; what is left
      in the output and the tag fills them. */
  lemma PossibleRunExactly(ps: Status, left: bytes, leftTag: bytes, len: nat)
    ensures PossibleRun(Runs, len) && (PossibleRun(FailsBefore(ps), len) <==> ps != Ok)
    ensures PossibleRun(FailsUpdate(ps, left), len) <==> ps != Ok && |left| == len
    ensures PossibleRun(FailsLast(ps, left, leftTag), len) <==> ps != Ok && |left| == len && |leftTag| == 16
    ensures PossibleRun(Miscounts(left, leftTag), len) <==> |left| == len && |leftTag| == 16
  {
  }

  /** The status of a run that fails. */
  function RunStatus(run: Run): Status {
    match run
    case Runs => Ok
    case FailsBefore(ps) => ps
    case FailsUpdate(ps, _) => ps
    case FailsLast(ps, _, _) => ps
    case Miscounts(_, _) => Internal
  }

  /** `check_aead_args`; `known` is whether the algorithm is AES-GCM and built in. */
  function CheckAeadArgs(encrypt: bool, ready: bool, known: bool, key: Input, nonce: Input, ad: Input,
                         inp: Pointer, len: nat, outp: Pointer, tag: Pointer, tagLen: nat): Status
  {
    if !ready then NotReady
    else if key.NullInput? || nonce.NullInput? || tag.Null? || (ad.NullInput? && ad.len != 0)
            || ((inp.Null? || outp.Null?) && len != 0) then InvalidArgument
    else if !known then Unsupported
    else if |key.data| !in {16, 24, 32} || |nonce.data| != NONCE_SIZE then BadLength
    else if tagLen != TAG_SIZE then (if encrypt then BadLength else Auth)
    else if len != 0 && Overlaps(inp, outp, len) then Overlap
    else Ok
  }

  /** Which arguments are refused with which status. A tag to be written must have 16 bytes; a received one of
      another length does not match. */
  lemma AeadArgsExactly(encrypt: bool, ready: bool, known: bool, key: Input, nonce: Input, ad: Input,
                        inp: Pointer, len: nat, outp: Pointer, tag: Pointer, tagLen: nat)
    ensures var st := CheckAeadArgs(encrypt, ready, known, key, nonce, ad, inp, len, outp, tag, tagLen);
            var nulls := key.NullInput? || nonce.NullInput? || tag.Null? || (ad.NullInput? && ad.len > 0)
                         || (len > 0 && (inp.Null? || outp.Null?));
            var accepted := ready && !nulls && known;
            var lengths := accepted && (|key.data| == 16 || |key.data| == 24 || |key.data| == 32) && |nonce.data| == 12;
            var shared := len > 0 && inp.At? && outp.At? && inp.addr != outp.addr && inp.addr < outp.addr + len && outp.addr < inp.addr + len;
            && (st == NotReady <==> !ready)
            && (st == InvalidArgument <==> ready && nulls)
            && (st == Unsupported <==> ready && !nulls && !known)
            && (st == BadLength <==> accepted && (!lengths || (encrypt && tagLen != 16)))
            && (st == Auth <==> lengths && !encrypt && tagLen != 16)
            && (st == Overlap <==> lengths && tagLen == 16 && shared)
            && (st == Ok <==> lengths && tagLen == 16 && !shared)
  {
  }

  /** How a pass that fails is reported: a wrong byte count as an internal error, anything else as itself. */
  lemma RunStatusExactly(run: Run)
    ensures run.Runs? ==> RunStatus(run) == Ok
    ensures run.Miscounts? ==> RunStatus(run) == Internal
    ensures run.FailsBefore? || run.FailsUpdate? || run.FailsLast? ==> RunStatus(run) == run.ps
  {
  }

  function Data(ad: Input): bytes {
    if ad.NullInput? then [] else ad.data
  }

  /** Memory with `w` in the output buffer; an empty output may have no buffer at all. */
  function WithOutput(m: bytes, outp: Pointer, w: bytes): (r: bytes)
    requires w != [] ==> outp.At? && outp.addr + |w| <= |m|
    ensures |r| == |m|
  {
    if w == [] then m else Splice(m, outp.addr, w)
  }

  function InputText(m: bytes, inp: Pointer, len: nat): (r: bytes)
    requires len != 0 ==> inp.At? && inp.addr + len <= |m|
    ensures |r| == len
  {
    if len == 0 then [] else Buffers.Read(m, inp, len)
  }

  method PutOutput(mem: array<byte>, outp: Pointer, w: bytes)
    requires w != [] ==> outp.At? && outp.addr + |w| <= mem.Length
    modifies mem
    ensures mem[..] == WithOutput(old(mem[..]), outp, w)
  {
    if w != [] {
      Store(mem, outp.addr, w);
    }
  }

  /** `aead_run`: one pass. A decrypting pass has written its plaintext when it reads the tag. `left`
      and `leftTag` name what the pass leaves in the two buffers. */
  method AeadRun(a: Algorithm, encrypt: bool, k: bytes, n: bytes, ad: bytes, mem: array<byte>,
                 inp: Pointer, len: nat, outp: Pointer, tag: nat, run: Run)
    returns (st: Status, ghost left: bytes, ghost leftTag: bytes)
    requires IsAead(a) && PossibleRun(run, len) && tag + TAG_SIZE <= mem.Length
    requires len != 0 ==> inp.At? && inp.addr + len <= mem.Length && outp.At? && outp.addr + len <= mem.Length
    modifies mem
    ensures |left| == len && |leftTag| == TAG_SIZE
    ensures encrypt ==> mem[..] == Splice(WithOutput(old(mem[..]), outp, left), tag, leftTag)
    ensures !encrypt ==> mem[..] == WithOutput(old(mem[..]), outp, left)
    ensures !run.Runs? ==> st == RunStatus(run) && st != Ok
    ensures encrypt && run.Runs? ==>
              && st == Ok
              && left == a.enc(k, n, ad, InputText(old(mem[..]), inp, len)) && leftTag == a.tag(k, n, ad, left)
    ensures !encrypt && run.Runs? ==>
              && left == a.dec(k, n, ad, InputText(old(mem[..]), inp, len))
              && st == if Verified(a, k, n, ad, old(mem[..]), inp, len, outp, tag) then Ok else Auth
  {
    hide WithOutput, Splice;
    left, leftTag := InputText(mem[..], outp, len), mem[tag..tag + TAG_SIZE];
    Unwritten(mem[..], outp, len, tag);
    match run {
      case FailsBefore(ps) =>
        st := ps;
      case FailsUpdate(ps, rest) =>
        st, left := ps, rest;
        PutOutput(mem, outp, rest);
        leftTag := mem[tag..tag + TAG_SIZE];
        UnwrittenTag(mem[..], tag);
      case FailsLast(ps, rest, restTag) =>
        st, left, leftTag := ps, rest, restTag;
        PutOutput(mem, outp, rest);
        if encrypt {
          Store(mem, tag, restTag);
        }
      case Miscounts(rest, restTag) =>
        st, left, leftTag := Internal, rest, restTag;
        PutOutput(mem, outp, rest);
        if encrypt {
          Store(mem, tag, restTag);
        }
      case Runs =>
        var text := if len == 0 then [] else mem[inp.addr..inp.addr + len];
        if encrypt {
          var c := a.enc(k, n, ad, text);
          left, leftTag := c, a.tag(k, n, ad, c);
          PutOutput(mem, outp, c);
          Store(mem, tag, a.tag(k, n, ad, c));
          return Ok, left, leftTag;
        }
        left := a.dec(k, n, ad, text);
        PutOutput(mem, outp, a.dec(k, n, ad, text));
        var received := mem[tag..tag + TAG_SIZE];
        st := if received == a.tag(k, n, ad, text) then Ok else Auth;
    }
  }

  lemma UnwrittenTag(m: bytes, tag: nat)
    requires tag + TAG_SIZE <= |m|
    ensures Splice(m, tag, m[tag..tag + TAG_SIZE]) == m
  {
  }

  lemma Unwritten(m: bytes, outp: Pointer, len: nat, tag: nat)
    requires tag + TAG_SIZE <= |m| && (len != 0 ==> outp.At? && outp.addr + len <= |m|)
    ensures WithOutput(m, outp, InputText(m, outp, len)) == m
    ensures Splice(m, tag, m[tag..tag + TAG_SIZE]) == m
  {
    UnwrittenTag(m, tag);
    if len != 0 {
      var o := outp.addr;
      assert m == m[..o] + m[o..o + len] + m[o + len..];
    }
  }

  /** Memory after a successful encryption: the ciphertext, and then the tag. */
  function Sealed(a: Algorithm, k: bytes, n: bytes, ad: bytes, m: bytes, inp: Pointer, len: nat, outp: Pointer, tag: nat): bytes
    requires IsAead(a) && tag + TAG_SIZE <= |m|
    requires len != 0 ==> inp.At? && inp.addr + len <= |m| && outp.At? && outp.addr + len <= |m|
  {
    var c := a.enc(k, n, ad, InputText(m, inp, len));
    Splice(WithOutput(m, outp, c), tag, a.tag(k, n, ad, c))
  }

  /** Memory after a decrypting pass. */
  function Opened(a: Algorithm, k: bytes, n: bytes, ad: bytes, m: bytes, inp: Pointer, len: nat, outp: Pointer): (r: bytes)
    requires IsAead(a)
    requires len != 0 ==> inp.At? && inp.addr + len <= |m| && outp.At? && outp.addr + len <= |m|
    ensures |r| == |m|
  {
    WithOutput(m, outp, a.dec(k, n, ad, InputText(m, inp, len)))
  }

  /** The tag that memory holds after a decrypting pass is the tag of the ciphertext it read. */
  predicate Verified(a: Algorithm, k: bytes, n: bytes, ad: bytes, m: bytes, inp: Pointer, len: nat, outp: Pointer, tag: nat)
    requires IsAead(a) && tag + TAG_SIZE <= |m|
    requires len != 0 ==> inp.At? && inp.addr + len <= |m| && outp.At? && outp.addr + len <= |m|
  {
    Opened(a, k, n, ad, m, inp, len, outp)[tag..tag + TAG_SIZE] == a.tag(k, n, ad, InputText(m, inp, len))
  }

  /** `zuc_aead_encrypt`. An argument error changes nothing; any later failure leaves zeros in the
      whole output and the whole tag. */
  method AeadEncrypt(a: Algorithm, ready: bool, known: bool, key: Input, nonce: Input, ad: Input,
                     mem: array<byte>, inp: Pointer, len: nat, outp: Pointer, tag: Pointer, tagLen: nat, run: Run)
    returns (st: Status)
    requires IsAead(a) && PossibleRun(run, len)
    requires Readable(mem.Length, inp, len) && Readable(mem.Length, outp, len) && Readable(mem.Length, tag, tagLen)
    modifies mem
    ensures var check := CheckAeadArgs(true, ready, known, key, nonce, ad, inp, len, outp, tag, tagLen);
            if check != Ok then st == check && mem[..] == old(mem[..])
            else if run.Runs? then
              st == Ok && mem[..] == Sealed(a, key.data, nonce.data, if ad.Given? then ad.data else [], old(mem[..]), inp, len, outp, tag.addr)
            else st == RunStatus(run) && st != Ok && mem[..] == Splice(WithOutput(old(mem[..]), outp, Zeros(len)), tag.addr, Zeros(TAG_SIZE))
  {
    hide WithOutput, Splice, Overlaps;
    st := CheckAeadArgs(true, ready, known, key, nonce, ad, inp, len, outp, tag, tagLen);
    if st != Ok {
      return;
    }
    ghost var start := mem[..];
    ghost var left, leftTag;
    st, left, leftTag := AeadRun(a, true, key.data, nonce.data, Data(ad), mem, inp, len, outp, tag.addr, run);
    if st != Ok {
      ZeroedBoth(start, outp, left, tag.addr, leftTag);
      OutputIsSplice(mem[..], outp, Zeros(len));
      if len != 0 {
        SecureZero(mem, outp, len);
      }
      SecureZero(mem, tag, tagLen);
    }
  }

  lemma OutputIsSplice(m: bytes, outp: Pointer, w: bytes)
    requires w != [] ==> outp.At? && outp.addr + |w| <= |m|
    ensures if w == [] then WithOutput(m, outp, w) == m else WithOutput(m, outp, w) == Splice(m, outp.addr, w)
  {
  }

  /** Zeroing the output and then the tag leaves nothing of what a failing run wrote. */
  lemma ZeroedBoth(m: bytes, outp: Pointer, left: bytes, tag: nat, leftTag: bytes)
    requires tag + |leftTag| <= |m| && (left != [] ==> outp.At? && outp.addr + |left| <= |m|)
    ensures var dirty := Splice(WithOutput(m, outp, left), tag, leftTag);
            Splice(WithOutput(dirty, outp, Zeros(|left|)), tag, Zeros(|leftTag|)) ==
            Splice(WithOutput(m, outp, Zeros(|left|)), tag, Zeros(|leftTag|))
  {
    hide Splice;
    var written, zeros := WithOutput(m, outp, left), Zeros(|left|);
    var dirty := Splice(written, tag, leftTag);
    SpliceAt(written, tag, leftTag);
    SpliceAt(WithOutput(dirty, outp, zeros), tag, Zeros(|leftTag|));
    SpliceAt(WithOutput(m, outp, zeros), tag, Zeros(|leftTag|));
    if left != [] {
      SpliceAt(m, outp.addr, left);
      SpliceAt(dirty, outp.addr, zeros);
      SpliceAt(m, outp.addr, zeros);
    }
  }

  /** `zuc_aead_decrypt`. An argument error, a tag of another length among them, changes nothing; any
      later failure leaves zeros in the whole output; OK means that the tag verified. */
  method AeadDecrypt(a: Algorithm, ready: bool, known: bool, key: Input, nonce: Input, ad: Input,
                     mem: array<byte>, inp: Pointer, len: nat, tag: Pointer, tagLen: nat, outp: Pointer, run: Run)
    returns (st: Status)
    requires IsAead(a) && PossibleRun(run, len)
    requires Readable(mem.Length, inp, len) && Readable(mem.Length, outp, len) && Readable(mem.Length, tag, tagLen)
    modifies mem
    ensures var check := CheckAeadArgs(false, ready, known, key, nonce, ad, inp, len, outp, tag, tagLen);
            if check != Ok then st == check && mem[..] == old(mem[..])
            else
              var x := if ad.Given? then ad.data else [];
              var verified := Verified(a, key.data, nonce.data, x, old(mem[..]), inp, len, outp, tag.addr);
              && (st == Ok <==> run.Runs? && verified)
              && (run.Runs? && !verified ==> st == Auth)
              && (!run.Runs? ==> st == RunStatus(run))
              && mem[..] == if st == Ok then Opened(a, key.data, nonce.data, x, old(mem[..]), inp, len, outp)
                            else WithOutput(old(mem[..]), outp, Zeros(len))
  {
    hide WithOutput, Splice, Overlaps, Verified;
    st := CheckAeadArgs(false, ready, known, key, nonce, ad, inp, len, outp, tag, tagLen);
    if st != Ok {
      return;
    }
    ghost var start := mem[..];
    ghost var left, leftTag;
    st, left, leftTag := AeadRun(a, false, key.data, nonce.data, Data(ad), mem, inp, len, outp, tag.addr, run);
    if st != Ok {
      ZeroedOutput(start, outp, left);
      OutputIsSplice(mem[..], outp, Zeros(len));
      if len != 0 {
        SecureZero(mem, outp, len);
      }
    }
  }

  lemma ZeroedOutput(m: bytes, outp: Pointer, left: bytes)
    requires left != [] ==> outp.At? && outp.addr + |left| <= |m|
    ensures WithOutput(WithOutput(m, outp, left), outp, Zeros(|left|)) == WithOutput(m, outp, Zeros(|left|))
  {
  }

  // --- the tag that is compared ------------------------------------------

  /** Buffers inside memory: an empty text needs none. */
  predicate Placed(size: nat, inp: Pointer, len: nat, outp: Pointer, tag: nat) {
    && tag + TAG_SIZE <= size
    && (len != 0 ==> inp.At? && inp.addr + len <= size && outp.At? && outp.addr + len <= size)
  }

  /** The tag buffer has no byte in common with the output. */
  predicate TagApart(len: nat, outp: Pointer, tag: nat) {
    outp.Null? || len == 0 || tag + TAG_SIZE <= outp.addr || outp.addr + len <= tag
  }

  /** The tag in the caller's memory is the tag of the ciphertext there. */
  predicate Genuine(a: Algorithm, k: bytes, n: bytes, ad: bytes, m: bytes, inp: Pointer, len: nat, outp: Pointer, tag: nat)
    requires Placed(|m|, inp, len, outp, tag)
  {
    m[tag..tag + TAG_SIZE] == a.tag(k, n, ad, InputText(m, inp, len))
  }

  /** In every placement: each byte of the tag is compared as the plaintext where the output covers it,
      and as the caller gave it elsewhere. */
  lemma VerifiedByByte(a: Algorithm, k: bytes, n: bytes, ad: bytes, m: bytes, inp: Pointer, len: nat, outp: Pointer, tag: nat)
    requires IsAead(a) && Placed(|m|, inp, len, outp, tag)
    ensures var c := InputText(m, inp, len);
            && |a.dec(k, n, ad, c)| == len && |a.tag(k, n, ad, c)| == TAG_SIZE
            && (Verified(a, k, n, ad, m, inp, len, outp, tag) <==>
                forall i :: 0 <= i < TAG_SIZE ==>
                  a.tag(k, n, ad, c)[i] == if Covers(outp, len, tag + i) then a.dec(k, n, ad, c)[tag + i - outp.addr] else m[tag + i])
  {
    hide Splice;
    var c := InputText(m, inp, len);
    var p, t := a.dec(k, n, ad, c), a.tag(k, n, ad, c);
    var after := Opened(a, k, n, ad, m, inp, len, outp);
    if len != 0 {
      SpliceAt(m, outp.addr, p);
    }
    var received := after[tag..tag + TAG_SIZE];
    assert forall i :: 0 <= i < TAG_SIZE ==> received[i] == after[tag + i];
    assert received == t <==> forall i :: 0 <= i < TAG_SIZE ==> t[i] == received[i];
  }

  /** With the tag buffer outside the output, the tag that is checked is the caller's. */
  lemma VerifiedTagApart(a: Algorithm, k: bytes, n: bytes, ad: bytes, m: bytes, inp: Pointer, len: nat, outp: Pointer, tag: nat)
    requires IsAead(a) && Placed(|m|, inp, len, outp, tag) && TagApart(len, outp, tag)
    ensures Verified(a, k, n, ad, m, inp, len, outp, tag) <==> Genuine(a, k, n, ad, m, inp, len, outp, tag)
  {
    hide Splice;
    if len != 0 {
      SpliceElsewhere(m, outp.addr, a.dec(k, n, ad, InputText(m, inp, len)), tag, TAG_SIZE);
    }
  }

  // --- a tag buffer that shares bytes with the output -------------------

  function Shift(s: bytes, d: nat): (r: bytes)
    ensures |r| == |s| && forall i :: 0 <= i < |s| ==> r[i] == (s[i] + d) % 256
  {
    seq(|s|, i requires 0 <= i < |s| => (s[i] + d) % 256)
  }

  /** An algorithm to build inputs from: plaintext bytes are ciphertext bytes plus one, and every message
      has the same tag. */
  function Shifting(t: bytes): Algorithm {
    Algorithm((k: bytes, n: bytes, ad: bytes, p: bytes) => Shift(p, 255),
              (k: bytes, n: bytes, ad: bytes, c: bytes) => Shift(c, 1),
              (k: bytes, n: bytes, ad: bytes, c: bytes) => t)
  }

  lemma ShiftingIsAead(t: bytes)
    requires |t| == TAG_SIZE
    ensures IsAead(Shifting(t))
  {
    forall s: bytes ensures Shift(Shift(s, 255), 1) == s && Shift(Shift(s, 1), 255) == s {
    }
  }

  /** What a decrypting pass over zeroed memory leaves where the tag is. */
  function LeftInTag(size: nat, inp: Pointer, len: nat, outp: Pointer, tag: nat): (t: bytes)
    requires Placed(size, inp, len, outp, tag)
    ensures |t| == TAG_SIZE
  {
    seq(TAG_SIZE, i requires 0 <= i < TAG_SIZE => if Covers(outp, len, tag + i) then 1 else 0)
  }

  lemma SharedTagRefusesGenuine(size: nat, k: bytes, n: bytes, ad: bytes, inp: Pointer, len: nat, outp: Pointer, tag: nat)
    requires Placed(size, inp, len, outp, tag) && !TagApart(len, outp, tag)
    ensures var a := Shifting(Zeros(TAG_SIZE));
            && IsAead(a) && Genuine(a, k, n, ad, Zeros(size), inp, len, outp, tag)
            && !Verified(a, k, n, ad, Zeros(size), inp, len, outp, tag)
  {
    hide Verified, Opened, IsAead;
    var m, zero, x := Zeros(size), Zeros(TAG_SIZE), SharedAt(len, outp, tag);
    ShiftingIsAead(zero);
    VerifiedByByte(Shifting(zero), k, n, ad, m, inp, len, outp, tag);
    assert Covers(outp, len, tag + (x - tag)) && zero[x - tag] == 0;
    assert m[tag..tag + TAG_SIZE] == zero;
  }

  lemma SharedTagAcceptsForged(size: nat, k: bytes, n: bytes, ad: bytes, inp: Pointer, len: nat, outp: Pointer, tag: nat)
    requires Placed(size, inp, len, outp, tag) && !TagApart(len, outp, tag)
    ensures var a := Shifting(LeftInTag(size, inp, len, outp, tag));
            && IsAead(a) && !Genuine(a, k, n, ad, Zeros(size), inp, len, outp, tag)
            && Verified(a, k, n, ad, Zeros(size), inp, len, outp, tag)
  {
    hide Verified, Opened, IsAead;
    var m, left, x := Zeros(size), LeftInTag(size, inp, len, outp, tag), SharedAt(len, outp, tag);
    ShiftingIsAead(left);
    VerifiedByByte(Shifting(left), k, n, ad, m, inp, len, outp, tag);
    assert left[x - tag] == 1;
    assert m[tag..tag + TAG_SIZE][x - tag] == 0;
  }

  /** For every placement in which they share a byte there are a genuine message that is refused and a
      forged one that is accepted. */
  lemma SharedTagFails(size: nat, k: bytes, n: bytes, ad: bytes, inp: Pointer, len: nat, outp: Pointer, tag: nat)
    requires Placed(size, inp, len, outp, tag) && !TagApart(len, outp, tag)
    ensures var a := Shifting(Zeros(TAG_SIZE));
            && IsAead(a) && Genuine(a, k, n, ad, Zeros(size), inp, len, outp, tag)
            && !Verified(a, k, n, ad, Zeros(size), inp, len, outp, tag)
    ensures var a := Shifting(LeftInTag(size, inp, len, outp, tag));
            && IsAead(a) && !Genuine(a, k, n, ad, Zeros(size), inp, len, outp, tag)
            && Verified(a, k, n, ad, Zeros(size), inp, len, outp, tag)
  {
    hide Verified, Genuine, IsAead;
    SharedTagRefusesGenuine(size, k, n, ad, inp, len, outp, tag);
    SharedTagAcceptsForged(size, k, n, ad, inp, len, outp, tag);
  }

  /** Every genuine message is accepted. */
  ghost predicate AcceptsGenuine(size: nat, inp: Pointer, len: nat, outp: Pointer, tag: nat)
    requires Placed(size, inp, len, outp, tag)
  {
    forall a: Algorithm, k: bytes, n: bytes, ad: bytes, m: bytes :: IsAead(a) && |m| == size ==>
      (Genuine(a, k, n, ad, m, inp, len, outp, tag) ==> Verified(a, k, n, ad, m, inp, len, outp, tag))
  }

  /** No other message is. */
  ghost predicate RefusesForged(size: nat, inp: Pointer, len: nat, outp: Pointer, tag: nat)
    requires Placed(size, inp, len, outp, tag)
  {
    forall a: Algorithm, k: bytes, n: bytes, ad: bytes, m: bytes :: IsAead(a) && |m| == size ==>
      (Verified(a, k, n, ad, m, inp, len, outp, tag) ==> Genuine(a, k, n, ad, m, inp, len, outp, tag))
  }

  /** For every placement, each holds of all algorithms, keys and memories exactly when the tag buffer has
      no byte in common with the output, which a caller can check. */
  lemma TagCheckedIff(size: nat, inp: Pointer, len: nat, outp: Pointer, tag: nat)
    requires Placed(size, inp, len, outp, tag)
    ensures AcceptsGenuine(size, inp, len, outp, tag) <==> TagApart(len, outp, tag)
    ensures RefusesForged(size, inp, len, outp, tag) <==> TagApart(len, outp, tag)
  {
    hide Verified, Genuine, IsAead;
    if TagApart(len, outp, tag) {
      forall a: Algorithm, k: bytes, n: bytes, ad: bytes, m: bytes | IsAead(a) && |m| == size
        ensures Verified(a, k, n, ad, m, inp, len, outp, tag) <==> Genuine(a, k, n, ad, m, inp, len, outp, tag)
      {
        VerifiedTagApart(a, k, n, ad, m, inp, len, outp, tag);
      }
    } else {
      SharedTagFails(size, [], [], [], inp, len, outp, tag);
    }
  }

  /** Such calls, in seventeen zero bytes: the output over the first byte of a genuine tag, and a message in place
      over its last one. The arguments are accepted, and the message is refused. */
  lemma GenuineRefused()
    ensures CheckAeadArgs(false, true, true, Given(Zeros(16)), Given(Zeros(12)), Given([]), At(16), 1, At(0), At(0), 16) == Ok
    ensures CheckAeadArgs(false, true, true, Given(Zeros(16)), Given(Zeros(12)), Given([]), At(15), 2, At(15), At(0), 16) == Ok
    ensures CheckAeadArgs(false, true, true, Given(Zeros(16)), Given(Zeros(12)), Given([]), At(0), 2, At(0), At(1), 16) == Ok
    ensures var a := Shifting(Zeros(16));
            && IsAead(a)
            && Genuine(a, Zeros(16), Zeros(12), [], Zeros(17), At(16), 1, At(0), 0)
            && !Verified(a, Zeros(16), Zeros(12), [], Zeros(17), At(16), 1, At(0), 0)
            && Genuine(a, Zeros(16), Zeros(12), [], Zeros(17), At(15), 2, At(15), 0)
            && !Verified(a, Zeros(16), Zeros(12), [], Zeros(17), At(15), 2, At(15), 0)
            && Genuine(a, Zeros(16), Zeros(12), [], Zeros(17), At(0), 2, At(0), 1)
            && !Verified(a, Zeros(16), Zeros(12), [], Zeros(17), At(0), 2, At(0), 1)
  {
    hide Verified, Genuine, IsAead;
    SharedTagRefusesGenuine(17, Zeros(16), Zeros(12), [], At(16), 1, At(0), 0);
    SharedTagRefusesGenuine(17, Zeros(16), Zeros(12), [], At(15), 2, At(15), 0);
    SharedTagRefusesGenuine(17, Zeros(16), Zeros(12), [], At(0), 2, At(0), 1);
  }

  // --- both directions together -----------------------------------------

  /** Decryption accepts and leaves p in the output exactly when memory held the encryption of p and its
      tag, the tag being apart from the output. */
  lemma AcceptedIffEncrypted(a: Algorithm, k: bytes, n: bytes, ad: bytes, m: bytes, inp: Pointer, len: nat, outp: Pointer, tag: nat,
                             p: bytes)
    requires IsAead(a) && Placed(|m|, inp, len, outp, tag) && TagApart(len, outp, tag)
    ensures var after := Opened(a, k, n, ad, m, inp, len, outp);
            Verified(a, k, n, ad, m, inp, len, outp, tag) && InputText(after, outp, len) == p <==>
            InputText(m, inp, len) == a.enc(k, n, ad, p) && m[tag..tag + TAG_SIZE] == a.tag(k, n, ad, a.enc(k, n, ad, p))
  {
    hide Splice, Verified;
    var c := InputText(m, inp, len);
    VerifiedTagApart(a, k, n, ad, m, inp, len, outp, tag);
    if len != 0 {
      SpliceReads(m, outp.addr, a.dec(k, n, ad, c));
    }
    assert a.dec(k, n, ad, a.enc(k, n, ad, p)) == p;
    assert a.enc(k, n, ad, a.dec(k, n, ad, c)) == c;
  }

  /** With the tag apart, memory after an encryption holds the ciphertext and its tag. */
  lemma SealedHolds(a: Algorithm, k: bytes, n: bytes, ad: bytes, m: bytes, inp: Pointer, len: nat, outp: Pointer, tag: nat)
    requires IsAead(a) && Placed(|m|, inp, len, outp, tag) && TagApart(len, outp, tag)
    ensures HoldsBoth(a, k, n, ad, m, inp, len, outp, tag)
  {
    hide Splice;
    var c := a.enc(k, n, ad, InputText(m, inp, len));
    var written, t := WithOutput(m, outp, c), a.tag(k, n, ad, c);
    SpliceReads(written, tag, t);
    if len != 0 {
      SpliceReads(m, outp.addr, c);
      SpliceElsewhere(written, tag, t, outp.addr, len);
    }
  }

  /** Decrypting, in memory, what an encryption left there opens to the plaintext it was given, for every
      length: the tag in a buffer of its own, the plaintext put anywhere that is accepted. */
  lemma OpensSealed(a: Algorithm, k: bytes, n: bytes, ad: bytes, m: bytes, inp: Pointer, len: nat, outp: Pointer, tag: nat, back: Pointer)
    requires IsAead(a) && Placed(|m|, inp, len, outp, tag) && TagApart(len, outp, tag)
    requires Placed(|m|, outp, len, back, tag) && TagApart(len, back, tag)
    ensures RoundTrips(a, k, n, ad, m, inp, len, outp, tag, back)
  {
    hide Verified, Opened, Sealed;
    SealedHolds(a, k, n, ad, m, inp, len, outp, tag);
    AcceptedIffEncrypted(a, k, n, ad, Sealed(a, k, n, ad, m, inp, len, outp, tag), outp, len, back, tag, InputText(m, inp, len));
  }

  // --- a tag that is written over the ciphertext -------------------------

  /** In every placement, what an encryption leaves at each address: the tag, which is written last, then
      the ciphertext, and elsewhere what was there. */
  lemma SealedByByte(a: Algorithm, k: bytes, n: bytes, ad: bytes, m: bytes, inp: Pointer, len: nat, outp: Pointer, tag: nat)
    requires IsAead(a) && Placed(|m|, inp, len, outp, tag)
    ensures var c := a.enc(k, n, ad, InputText(m, inp, len));
            var sealed := Sealed(a, k, n, ad, m, inp, len, outp, tag);
            && |sealed| == |m| && |c| == len && |a.tag(k, n, ad, c)| == TAG_SIZE
            && forall i :: 0 <= i < |m| ==>
                 sealed[i] == if tag <= i < tag + TAG_SIZE then a.tag(k, n, ad, c)[i - tag]
                              else if Covers(outp, len, i) then c[i - outp.addr] else m[i]
  {
    hide Splice;
    var c := a.enc(k, n, ad, InputText(m, inp, len));
    SpliceAt(WithOutput(m, outp, c), tag, a.tag(k, n, ad, c));
    if len != 0 {
      SpliceAt(m, outp.addr, c);
    }
  }

  /** Memory after an encryption holds the ciphertext and its tag. */
  predicate HoldsBoth(a: Algorithm, k: bytes, n: bytes, ad: bytes, m: bytes, inp: Pointer, len: nat, outp: Pointer, tag: nat)
    requires IsAead(a) && Placed(|m|, inp, len, outp, tag)
  {
    var c := a.enc(k, n, ad, InputText(m, inp, len));
    var sealed := Sealed(a, k, n, ad, m, inp, len, outp, tag);
    |sealed| == |m| && InputText(sealed, outp, len) == c && sealed[tag..tag + TAG_SIZE] == a.tag(k, n, ad, c)
  }

  /** Decrypting what an encryption left, into `back`, verifies and gives the plaintext back. */
  predicate RoundTrips(a: Algorithm, k: bytes, n: bytes, ad: bytes, m: bytes, inp: Pointer, len: nat, outp: Pointer, tag: nat,
                       back: Pointer)
    requires IsAead(a) && Placed(|m|, inp, len, outp, tag) && Placed(|m|, outp, len, back, tag)
  {
    var sealed := Sealed(a, k, n, ad, m, inp, len, outp, tag);
    && |sealed| == |m|
    && Verified(a, k, n, ad, sealed, outp, len, back, tag)
    && InputText(Opened(a, k, n, ad, sealed, outp, len, back), back, len) == InputText(m, inp, len)
  }

  function Fives(n: nat): bytes {
    seq(n, _ => 5)
  }

  /** An address that tag and output share. */
  function SharedAt(len: nat, outp: Pointer, tag: nat): (x: nat)
    requires !TagApart(len, outp, tag)
    ensures tag <= x < tag + TAG_SIZE && Covers(outp, len, x)
  {
    if outp.addr > tag then outp.addr else tag
  }

  /** For every placement in which they share a byte there is an encryption whose ciphertext is lost: it
      does not stand in the output, and no decryption returns the plaintext. */
  lemma SharedTagSpoils(size: nat, k: bytes, n: bytes, ad: bytes, inp: Pointer, len: nat, outp: Pointer, tag: nat, back: Pointer)
    requires Placed(size, inp, len, outp, tag) && Placed(size, outp, len, back, tag) && !TagApart(len, outp, tag)
    ensures var a, m := Shifting(Fives(TAG_SIZE)), Zeros(size);
            && IsAead(a) && !HoldsBoth(a, k, n, ad, m, inp, len, outp, tag)
            && !RoundTrips(a, k, n, ad, m, inp, len, outp, tag, back)
  {
    hide Verified, Opened, Sealed, IsAead;
    var a, m, x := Shifting(Fives(TAG_SIZE)), Zeros(size), SharedAt(len, outp, tag);
    ShiftingIsAead(Fives(TAG_SIZE));
    SealedByByte(a, k, n, ad, m, inp, len, outp, tag);
    var sealed := Sealed(a, k, n, ad, m, inp, len, outp, tag);
    var c := InputText(sealed, outp, len);
    assert c[x - outp.addr] == sealed[x] == 5;
    OpenedReads(a, k, n, ad, sealed, outp, len, back);
    assert InputText(Opened(a, k, n, ad, sealed, outp, len, back), back, len)[x - outp.addr] == 6;
    assert InputText(m, inp, len)[x - outp.addr] == 0;
  }

  /** The output after a decrypting pass is the plaintext. */
  lemma OpenedReads(a: Algorithm, k: bytes, n: bytes, ad: bytes, m: bytes, inp: Pointer, len: nat, outp: Pointer)
    requires IsAead(a)
    requires len != 0 ==> inp.At? && inp.addr + len <= |m| && outp.At? && outp.addr + len <= |m|
    ensures InputText(Opened(a, k, n, ad, m, inp, len, outp), outp, len) == a.dec(k, n, ad, InputText(m, inp, len))
  {
    hide Splice;
    if len != 0 {
      SpliceReads(m, outp.addr, a.dec(k, n, ad, InputText(m, inp, len)));
    }
  }

  /** When only the buffer that is decrypted into shares a byte with the tag, there is a sealed message
      that is refused. */
  lemma SharedTagRefuses(size: nat, k: bytes, n: bytes, ad: bytes, inp: Pointer, len: nat, outp: Pointer, tag: nat, back: Pointer)
    requires Placed(size, inp, len, outp, tag) && Placed(size, outp, len, back, tag)
    requires TagApart(len, outp, tag) && !TagApart(len, back, tag)
    ensures var a, m := Shifting(Fives(TAG_SIZE)), Zeros(size);
            IsAead(a) && !RoundTrips(a, k, n, ad, m, inp, len, outp, tag, back)
  {
    hide Verified, Opened, Sealed, IsAead;
    var a, m, x := Shifting(Fives(TAG_SIZE)), Zeros(size), SharedAt(len, back, tag);
    ShiftingIsAead(Fives(TAG_SIZE));
    SealedHolds(a, k, n, ad, m, inp, len, outp, tag);
    var sealed := Sealed(a, k, n, ad, m, inp, len, outp, tag);
    VerifiedByByte(a, k, n, ad, sealed, outp, len, back, tag);
    assert Covers(back, len, tag + (x - tag));
    var c := InputText(sealed, outp, len);
    assert c == Shift(InputText(m, inp, len), 255);
    assert a.dec(k, n, ad, c)[x - back.addr] == 0 && Fives(TAG_SIZE)[x - tag] == 5;
  }

  /** For every placement: an encryption leaves ciphertext and tag, for all algorithms, keys and memories,
      exactly when the tag buffer has no byte in common with the output. */
  lemma SealedIff(size: nat, inp: Pointer, len: nat, outp: Pointer, tag: nat)
    requires Placed(size, inp, len, outp, tag)
    ensures (forall a: Algorithm, k: bytes, n: bytes, ad: bytes, m: bytes :: IsAead(a) && |m| == size ==>
               HoldsBoth(a, k, n, ad, m, inp, len, outp, tag))
            <==> TagApart(len, outp, tag)
  {
    hide HoldsBoth, IsAead, RoundTrips;
    if TagApart(len, outp, tag) {
      forall a: Algorithm, k: bytes, n: bytes, ad: bytes, m: bytes | IsAead(a) && |m| == size
        ensures HoldsBoth(a, k, n, ad, m, inp, len, outp, tag)
      {
        SealedHolds(a, k, n, ad, m, inp, len, outp, tag);
      }
    } else {
      SharedTagSpoils(size, [], [], [], inp, len, outp, tag, outp);
    }
  }

  /** For every placement of the three buffers and the one decrypted into: the round trip returns the
      plaintext, for all algorithms, keys and memories, exactly when the tag shares a byte with neither
      output. */
  lemma RoundTripIff(size: nat, inp: Pointer, len: nat, outp: Pointer, tag: nat, back: Pointer)
    requires Placed(size, inp, len, outp, tag) && Placed(size, outp, len, back, tag)
    ensures (forall a: Algorithm, k: bytes, n: bytes, ad: bytes, m: bytes :: IsAead(a) && |m| == size ==>
               RoundTrips(a, k, n, ad, m, inp, len, outp, tag, back))
            <==> TagApart(len, outp, tag) && TagApart(len, back, tag)
  {
    hide HoldsBoth, IsAead, RoundTrips;
    if TagApart(len, outp, tag) && TagApart(len, back, tag) {
      forall a: Algorithm, k: bytes, n: bytes, ad: bytes, m: bytes | IsAead(a) && |m| == size
        ensures RoundTrips(a, k, n, ad, m, inp, len, outp, tag, back)
      {
        OpensSealed(a, k, n, ad, m, inp, len, outp, tag, back);
      }
    } else if !TagApart(len, outp, tag) {
      SharedTagSpoils(size, [], [], [], inp, len, outp, tag, back);
    } else {
      SharedTagRefuses(size, [], [], [], inp, len, outp, tag, back);
    }
  }

  /** Such an encryption: seventeen zero bytes, the output over the first byte of the tag. The arguments are
      accepted, and the ciphertext is lost. */
  lemma CiphertextLost()
    ensures CheckAeadArgs(true, true, true, Given(Zeros(16)), Given(Zeros(NONCE_SIZE)), Given([]), At(16), 1, At(0), At(0), TAG_SIZE) == Ok
    ensures var a := Shifting(Fives(TAG_SIZE));
            IsAead(a) && !HoldsBoth(a, Zeros(16), Zeros(NONCE_SIZE), [], Zeros(17), At(16), 1, At(0), 0)
  {
    hide HoldsBoth, RoundTrips;
    SharedTagSpoils(17, Zeros(16), Zeros(NONCE_SIZE), [], At(16), 1, At(0), 0, At(0));
  }

  lemma SpliceReads(m: bytes, at: nat, w: bytes)
    requires at + |w| <= |m|
    ensures Splice(m, at, w)[at..at + |w|] == w
  {
  }
}
