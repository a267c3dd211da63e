/** The two loops that drive the CBC handle: the chunk loop of src/zucrypt_crypt.c, and the segment
    loop of tools/zucryptlink/src/link.c, which restarts CBC at every segment. */
module CbcLoops {
  import opened Bytes
  import opened Options
  import opened Statuses
  import opened Buffers
  import opened Cbc
  import opened Aes

  /** ZUCRYPT_CHUNK, 1 MiB: a whole number of blocks. */
  const CHUNK: nat := 0x10_0000

  function Min(a: nat, b: nat): nat {
    if a < b then a else b
  }

  /** Calls at the offsets 0, step, 2 * step, ... all complete. */
  ghost predicate AllComplete(passes: nat -> Pass, step: nat, from: nat, total: nat)
    requires step > 0
    decreases if from < total then total - from else 0
  {
    from < total ==> passes(from).Completes? && AllComplete(passes, step, from + step, total)
  }

  /** The status of one piece: partial blocks are refused, and then the backend decides. */
  function PieceStatus(n: nat, ready: bool, pass: Pass): Status {
    if !ready then NotReady else if !Whole(n) then BadLength else PassStatus(pass)
  }

  /** The status a loop over pieces of `step` bytes ends with: that of the first piece to fail. */
  function LoopStatus(total: nat, step: nat, ready: bool, passes: nat -> Pass, from: nat): Status
    requires step > 0
    decreases if from < total then total - from else 0
  {
    if from >= total then Ok
    else
      var n := Min(total - from, step);
      var st := PieceStatus(n, ready, passes(from));
      if st != Ok then st else LoopStatus(total, step, ready, passes, from + n)
  }

  /** The loop ends with the status of the first piece to fail: not ready, a length that is no whole number of
      blocks, or what the pass returned; a piece that goes well leaves it to the rest. */
  lemma LoopStatusFirst(total: nat, step: nat, ready: bool, passes: nat -> Pass, from: nat, n: nat)
    requires step > 0 && from < total && n == if total - from < step then total - from else step
    ensures var st, pass := LoopStatus(total, step, ready, passes, from), passes(from);
            && (!ready ==> st == NotReady)
            && (ready && n % 16 != 0 ==> st == BadLength)
            && (ready && n % 16 == 0 && pass.Miscounts? ==> st == Internal)
            && (ready && n % 16 == 0 && (pass.SetupFails? || pass.UpdateFails? || pass.FinishFails?) && pass.ps != Ok ==> st == pass.ps)
            && (ready && n % 16 == 0 && pass.Completes? ==> st == LoopStatus(total, step, ready, passes, from + n))
  {
  }

  /** ZUCRYPT_CHUNK. */
  lemma ChunkIsOneMebibyte()
    ensures CHUNK == 1024 * 1024 && Whole(CHUNK)
  {
  }

  /** It is OK exactly when there is nothing to do, or the backend is ready, the data are whole blocks
      and every pass completes. */
  lemma {:induction false} LoopStatusIff(total: nat, step: nat, ready: bool, passes: nat -> Pass, from: nat)
    requires step > 0 && Whole(step) && from <= total
    requires forall o: nat :: o < total ==> Possible(passes(o), Min(total - o, step))
    ensures LoopStatus(total, step, ready, passes, from) == Ok <==>
            from == total || (ready && Whole(total - from) && AllComplete(passes, step, from, total))
    decreases total - from
  {
    hide Whole;
    if from < total {
      var n := Min(total - from, step);
      SegmentSizes(total, from, n, step);
      LoopStatusIff(total, step, ready, passes, from + n);
      if from + n == total {
        WholeZero();
      }
    }
  }

  /** One turn of either loop: the piece of `n` bytes at `offset`, from one buffer to another. */
  method Piece(h: Handle, encrypt: bool, mem: array<byte>, data: nat, total: nat, out: nat, offset: nat, n: nat,
               ready: bool, pass: Pass, ghost start: bytes, ghost src: bytes, ghost done: bytes)
    returns (st: Status)
    requires h.Valid() && 0 < n <= total - offset && Possible(pass, n)
    requires |start| == mem.Length && data + total <= |start| && out + total <= |start|
    requires data + total <= out || out + total <= data
    requires src == start[data..data + total] && |done| == offset && mem[..] == Splice(start, out, done)
    modifies h`chain, mem
    ensures h.Valid()
    ensures st == PieceStatus(n, ready, pass)
    ensures st == Ok ==> mem[..] == Splice(start, out, done + OnePass(h.cipher, h.key, encrypt, old(h.chain), src[offset..offset + n]))
    ensures st == Ok ==> h.chain == Chain(old(h.chain), Ciphertext(h.cipher, h.key, encrypt, old(h.chain), src[offset..offset + n]))
  {
    hide OnePass, Splice, Ciphertext;
    assert !Overlaps(At(data + offset), At(out + offset), n);
    SpliceElsewhere(start, out, done, data + offset, n);
    SubSlice(start, data, total, offset, n);
    if encrypt {
      st := h.CbcEncrypt(mem, At(data + offset), n, At(out + offset), ready, pass);
    } else {
      st := h.CbcDecrypt(mem, At(data + offset), n, At(out + offset), ready, pass);
    }
    if st == Ok {
      SpliceTwice(start, out, done, OnePass(h.cipher, h.key, encrypt, old(h.chain), src[offset..offset + n]));
    }
  }

  /** A loop that chains from piece to piece has done the first `offset` bytes of `src`: `done` is what
      it wrote, and a pass from `chain` over the rest completes one pass over the whole. */
  ghost predicate Chained(c: Cipher, k: bytes, encrypt: bool, iv: bytes, src: bytes, offset: nat, chain: bytes, done: bytes)
    requires IsBlockCipher(c) && |iv| == BLOCK && |chain| == BLOCK
  {
    && offset <= |src| && Whole(offset) && |done| == offset
    && (Whole(|src|) <==> Whole(|src| - offset))
    && (Whole(|src| - offset) ==> OnePass(c, k, encrypt, iv, src) == done + OnePass(c, k, encrypt, chain, src[offset..]))
  }

  lemma ChainedStarts(c: Cipher, k: bytes, encrypt: bool, iv: bytes, src: bytes)
    requires IsBlockCipher(c) && |iv| == BLOCK
    ensures Chained(c, k, encrypt, iv, src, 0, iv, [])
  {
    hide OnePass;
    assert src[0..] == src;
  }

  /** The next chunk, chained as the handle chains. */
  lemma ChainedStep(c: Cipher, k: bytes, encrypt: bool, iv: bytes, src: bytes, offset: nat, chain: bytes, done: bytes, n: nat)
    requires IsBlockCipher(c) && |iv| == BLOCK && |chain| == BLOCK && Chained(c, k, encrypt, iv, src, offset, chain, done)
    requires offset < |src| && n == Min(|src| - offset, CHUNK) && Whole(n)
    ensures var piece := src[offset..offset + n];
            var next := Chain(chain, Ciphertext(c, k, encrypt, chain, piece));
            |next| == BLOCK && Chained(c, k, encrypt, iv, src, offset + n, next, done + OnePass(c, k, encrypt, chain, piece))
  {
    hide OnePass, Ciphertext, Whole;
    ChunkSizes(|src|, offset, n);
    var piece := src[offset..offset + n];
    ChainLength(c, k, encrypt, chain, piece);
    if Whole(|src| - (offset + n)) {
      assert src[offset..] == piece + src[offset + n..];
      OnePassAppend(c, k, encrypt, chain, piece, src[offset + n..]);
    }
  }

  lemma ChainLength(c: Cipher, k: bytes, encrypt: bool, iv: bytes, m: bytes)
    requires IsBlockCipher(c) && |iv| == BLOCK && Whole(|m|)
    ensures |Chain(iv, Ciphertext(c, k, encrypt, iv, m))| == BLOCK
  {
  }

  lemma ChainedEnds(c: Cipher, k: bytes, encrypt: bool, iv: bytes, src: bytes, chain: bytes, done: bytes)
    requires IsBlockCipher(c) && |iv| == BLOCK && |chain| == BLOCK && Chained(c, k, encrypt, iv, src, |src|, chain, done)
    ensures Whole(|src|) && done == OnePass(c, k, encrypt, iv, src)
  {
    hide OnePass;
    assert src[|src|..] == [];
    EmptyPass(c, k, encrypt, chain);
    assert done + [] == done;
  }

  lemma SubSlice(m: bytes, at: nat, len: nat, offset: nat, n: nat)
    requires at + len <= |m| && offset + n <= len
    ensures m[at..at + len][offset..offset + n] == m[at + offset..at + offset + n]
  {
    var s, a, b := m[at..at + len], m[at..at + len][offset..offset + n], m[at + offset..at + offset + n];
    forall i | 0 <= i < n ensures a[i] == b[i] {
      assert a[i] == s[offset + i];
    }
  }

  lemma WholeZero()
    ensures Whole(0)
  {
  }

  /** A chunk is a whole number of blocks, or it is the rest. */
  lemma ChunkSizes(total: nat, offset: nat, n: nat)
    requires offset < total && Whole(offset) && n == Min(total - offset, CHUNK)
    ensures !Whole(n) ==> !Whole(total - offset)
    ensures Whole(n) ==> Whole(offset + n) && (Whole(total - (offset + n)) <==> Whole(total - offset))
  {
  }

  lemma SpliceNothing(m: bytes, at: nat)
    requires at <= |m|
    ensures Splice(m, at, []) == m
  {
  }

  // --- segments ---------------------------------------------------------

  predicate AllWhole(parts: seq<bytes>) {
    forall i :: 0 <= i < |parts| ==> Whole(|parts[i]|)
  }

  lemma WholeRest(len: nat, seg: nat)
    requires Whole(len) && Whole(seg) && seg <= len
    ensures Whole(len - seg)
  {
  }

  /** The message cut into segments of `seg` bytes, the last one possibly shorter. */
  function Cut(m: bytes, seg: nat): (parts: seq<bytes>)
    requires seg > 0
    ensures Whole(seg) && Whole(|m|) ==> AllWhole(parts)
    decreases |m|
  {
    hide Whole;
    if m == [] then []
    else if |m| <= seg then [m]
    else
      assert Whole(seg) && Whole(|m|) ==> Whole(|m| - seg) by {
        if Whole(seg) && Whole(|m|) {
          WholeRest(|m|, seg);
        }
      }
      [m[..seg]] + Cut(m[seg..], seg)
  }

  /** An independent pass over each part, all from the same chaining value. */
  function PassEach(c: Cipher, k: bytes, encrypt: bool, iv: bytes, parts: seq<bytes>): (r: seq<bytes>)
    requires IsBlockCipher(c) && |iv| == BLOCK && AllWhole(parts)
    ensures |r| == |parts|
    ensures forall i :: 0 <= i < |parts| ==> r[i] == OnePass(c, k, encrypt, iv, parts[i])
  {
    seq(|parts|, i requires 0 <= i < |parts| => OnePass(c, k, encrypt, iv, parts[i]))
  }

  function Segmented(c: Cipher, k: bytes, encrypt: bool, iv: bytes, seg: nat, m: bytes): (r: bytes)
    requires IsBlockCipher(c) && |iv| == BLOCK && seg > 0 && Whole(seg) && Whole(|m|)
    ensures |r| == |m|
  {
    PiecesLength(c, k, encrypt, iv, seg, m);
    Flatten(PassEach(c, k, encrypt, iv, Cut(m, seg)))
  }

  lemma CutStep(m: bytes, seg: nat)
    requires seg > 0 && Whole(seg) && Whole(|m|) && m != []
    ensures var n := Min(|m|, seg);
            Whole(n) && Whole(|m| - n) && Cut(m, seg) == [m[..n]] + Cut(m[n..], seg)
  {
    if |m| <= seg {
      assert m[..|m|] == m && m[|m|..] == [];
    }
  }

  lemma PassFirst(c: Cipher, k: bytes, encrypt: bool, iv: bytes, first: bytes, rest: seq<bytes>)
    requires IsBlockCipher(c) && |iv| == BLOCK && AllWhole([first] + rest) && Whole(|first|) && AllWhole(rest)
    ensures Flatten(PassEach(c, k, encrypt, iv, [first] + rest)) ==
            OnePass(c, k, encrypt, iv, first) + Flatten(PassEach(c, k, encrypt, iv, rest))
  {
    hide OnePass, Whole;
    var each := PassEach(c, k, encrypt, iv, [first] + rest);
    assert each[1..] == PassEach(c, k, encrypt, iv, rest);
  }

  lemma {:induction false} PiecesLength(c: Cipher, k: bytes, encrypt: bool, iv: bytes, seg: nat, m: bytes)
    requires IsBlockCipher(c) && |iv| == BLOCK && seg > 0 && Whole(seg) && Whole(|m|)
    ensures |Flatten(PassEach(c, k, encrypt, iv, Cut(m, seg)))| == |m|
    decreases |m|
  {
    hide OnePass, Whole;
    if m != [] {
      var n := Min(|m|, seg);
      CutStep(m, seg);
      PassFirst(c, k, encrypt, iv, m[..n], Cut(m[n..], seg));
      PiecesLength(c, k, encrypt, iv, seg, m[n..]);
    }
  }

  lemma SegmentStep(c: Cipher, k: bytes, encrypt: bool, iv: bytes, seg: nat, m: bytes)
    requires IsBlockCipher(c) && |iv| == BLOCK && seg > 0 && Whole(seg) && Whole(|m|) && m != []
    ensures var n := Min(|m|, seg);
            && Whole(n) && Whole(|m| - n)
            && Segmented(c, k, encrypt, iv, seg, m) == OnePass(c, k, encrypt, iv, m[..n]) + Segmented(c, k, encrypt, iv, seg, m[n..])
  {
    hide OnePass, Whole;
    var n := Min(|m|, seg);
    CutStep(m, seg);
    PassFirst(c, k, encrypt, iv, m[..n], Cut(m[n..], seg));
  }

  lemma SegmentedNothing(c: Cipher, k: bytes, encrypt: bool, iv: bytes, seg: nat)
    requires IsBlockCipher(c) && |iv| == BLOCK && seg > 0 && Whole(seg)
    ensures Whole(0) && Segmented(c, k, encrypt, iv, seg, []) == []
  {
  }

  lemma OneLess(j: nat, seg: nat)
    requires j > 0
    ensures j * seg == seg + (j - 1) * seg && (j - 1) * seg >= 0
  {
  }

  lemma {:induction false} SegmentFrom(c: Cipher, k: bytes, encrypt: bool, iv: bytes, seg: nat, m: bytes, j: nat, at: nat)
    requires IsBlockCipher(c) && |iv| == BLOCK && seg > 0 && Whole(seg) && Whole(|m|) && at == j * seg && at < |m|
    ensures var end := if at + seg < |m| then at + seg else |m|;
            Whole(end - at) && Segmented(c, k, encrypt, iv, seg, m)[at..end] == OnePass(c, k, encrypt, iv, m[at..end])
    decreases j
  {
    hide OnePass, Segmented, Whole, IsBlockCipher;
    var n := Min(|m|, seg);
    SegmentStep(c, k, encrypt, iv, seg, m);
    var first, rest := OnePass(c, k, encrypt, iv, m[..n]), Segmented(c, k, encrypt, iv, seg, m[n..]);
    var all := Segmented(c, k, encrypt, iv, seg, m);
    if j == 0 {
      assert all[0..n] == first && m[0..n] == m[..n];
    } else {
      OneLess(j, seg);
      SegmentFrom(c, k, encrypt, iv, seg, m[n..], j - 1, at - seg);
      var end := if at + seg < |m| then at + seg else |m|;
      assert all[n..] == rest;
      SliceOfRest(all, n, at - n, end - n);
      SliceOfRest(m, n, at - n, end - n);
    }
  }

  /** Each segment of the result, the last one possibly shorter, is a pass of its own from the same initial
      value over that segment of the message. */
  lemma SegmentAt(c: Cipher, k: bytes, encrypt: bool, iv: bytes, seg: nat, m: bytes, j: nat, at: nat, end: nat)
    requires IsBlockCipher(c) && |iv| == 16 && seg > 0 && seg % 16 == 0 && |m| % 16 == 0
    requires at == j * seg < |m| && end == if at + seg < |m| then at + seg else |m|
    ensures (end - at) % 16 == 0 && Segmented(c, k, encrypt, iv, seg, m)[at..end] == OnePass(c, k, encrypt, iv, m[at..end])
  {
    hide OnePass, Segmented;
    SegmentFrom(c, k, encrypt, iv, seg, m, j, at);
  }

  /** Decrypting with the same segment size undoes segmented encryption, for every message of whole
      blocks. */
  lemma {:induction false} SegmentedInverts(c: Cipher, k: bytes, iv: bytes, seg: nat, m: bytes)
    requires IsBlockCipher(c) && |iv| == BLOCK && seg > 0 && Whole(seg) && Whole(|m|)
    ensures Segmented(c, k, false, iv, seg, Segmented(c, k, true, iv, seg, m)) == m
    decreases |m|
  {
    hide Segmented, Encrypt, Decrypt;
    if m == [] {
      SegmentedNothing(c, k, true, iv, seg);
      SegmentedNothing(c, k, false, iv, seg);
    } else {
      var n := Min(|m|, seg);
      SegmentStep(c, k, true, iv, seg, m);
      SegmentedInverts(c, k, iv, seg, m[n..]);
      var first, rest := Encrypt(c, k, iv, m[..n]), Segmented(c, k, true, iv, seg, m[n..]);
      assert (first + rest)[..n] == first && (first + rest)[n..] == rest;
      SegmentStep(c, k, false, iv, seg, first + rest);
      DecryptEncrypt(c, k, iv, m[..n]);
      assert m == m[..n] + m[n..];
    }
  }

  /** `(size_t) Rf_asInteger(segment)`: a negative int becomes a huge size. */
  function SizeT(segment: int): nat
    requires -0x8000_0000 <= segment < 0x8000_0000
  {
    if segment < 0 then 0x1_0000_0000_0000_0000 + segment else segment
  }

  /** It keeps what is not negative, adds 2^64 to what is, and so keeps the remainder by the block size. */
  lemma SizeTExactly(segment: int)
    requires -0x8000_0000 <= segment < 0x8000_0000
    ensures segment >= 0 ==> SizeT(segment) == segment
    ensures segment < 0 ==> SizeT(segment) == 18446744073709551616 + segment
    ensures Whole(SizeT(segment)) <==> segment % 16 == 0
  {
  }

  datatype Reply = Refused | Finished(st: Status)

  /** `zl_segments`; `created` is what `zuc_aes_new` returned. A segment that is zero or not whole
      blocks is refused; otherwise it succeeds exactly when every segment does. */
  method Segments(h: Handle, created: Status, encrypt: bool, mem: array<byte>, data: nat, total: nat, out: nat,
                  iv: bytes, segment: int, ready: bool, passes: nat -> Pass)
    returns (r: Reply)
    requires h.Valid() && data + total <= mem.Length && out + total <= mem.Length
    requires data + total <= out || out + total <= data
    requires -0x8000_0000 <= segment < 0x8000_0000
    requires forall o: nat :: o < total ==> Possible(passes(o), Min(total - o, SizeT(segment)))
    modifies h`chain, mem
    ensures h.Valid()
    ensures r == Refused <==> |iv| != 16 || segment == 0 || segment % 16 != 0
    ensures r == Refused ==> mem[..] == old(mem[..]) && h.chain == old(h.chain)
    ensures r.Finished? ==> r.st == if created != Ok then created else LoopStatus(total, SizeT(segment), ready, passes, 0)
    ensures r.Finished? ==>
              (r.st == Ok <==> created == Ok && (total == 0 || (ready && Whole(total) && AllComplete(passes, SizeT(segment), 0, total))))
    ensures r == Finished(Ok) ==>
              && Whole(total)
              && mem[..] == Splice(old(mem[..]), out,
                                   Segmented(h.cipher, h.key, encrypt, iv, SizeT(segment), old(mem[data..data + total])))
  {
    hide OnePass, Splice, Ciphertext, Whole, Segmented, AllComplete, IsBlockCipher, Possible, PieceStatus;
    SizeTExactly(segment);
    var seg := SizeT(segment);
    if |iv| != BLOCK || seg == 0 || !Whole(seg) {
      return Refused;
    }
    ghost var src, start, c, k := mem[data..data + total], mem[..], h.cipher, h.key;
    ghost var done: bytes := [];
    var st, offset := created, 0;
    SpliceNothing(start, out);
    SegmentedNothing(c, k, encrypt, iv, seg);
    LoopStatusIff(total, seg, ready, passes, 0);
    assert src[0..] == src;
    while st == Ok && offset < total
      invariant 0 <= offset <= total && h.Valid()
      invariant st == Ok ==> created == Ok && |done| == offset && mem[..] == Splice(start, out, done)
      invariant st == Ok && Whole(total - offset) ==>
                  Whole(total) && Segmented(c, k, encrypt, iv, seg, src) == done + Segmented(c, k, encrypt, iv, seg, src[offset..])
      invariant st == Ok ==> (Whole(total) <==> Whole(total - offset))
      invariant created == Ok ==>
                  LoopStatus(total, seg, ready, passes, 0) == if st == Ok then LoopStatus(total, seg, ready, passes, offset) else st
      invariant created != Ok ==> st == created
      decreases total - offset
    {
      var n := Min(total - offset, seg);
      st := h.SetState(Some(iv));
      if st != Ok {
        break;
      }
      st := Piece(h, encrypt, mem, data, total, out, offset, n, ready, passes(offset), start, src, done);
      SegmentSizes(total, offset, n, seg);
      OkPiece(n, ready, passes(offset));
      if st == Ok {
        done := done + OnePass(c, k, encrypt, iv, src[offset..offset + n]);
        if Whole(total - (offset + n)) {
          SegmentStep(c, k, encrypt, iv, seg, src[offset..]);
          assert src[offset..][..n] == src[offset..offset + n] && src[offset..][n..] == src[offset + n..];
        }
      }
      offset := offset + n;
    }
    if st == Ok {
      assert src[offset..] == [];
      assert done + [] == done;
    }
    return Finished(st);
  }

  lemma OkPiece(n: nat, ready: bool, pass: Pass)
    ensures PieceStatus(n, ready, pass) == Ok ==> Whole(n)
  {
  }

  lemma SegmentSizes(total: nat, offset: nat, n: nat, seg: nat)
    requires offset < total && Whole(seg) && n == Min(total - offset, seg)
    ensures !Whole(n) ==> !Whole(total - offset)
    ensures Whole(n) ==> (Whole(total - (offset + n)) <==> Whole(total - offset))
  {
  }

  /** A negative multiple of the block size, R's missing integer among them, is not refused: for
      every message R can hold it means a single segment, so the restart never happens. */
  lemma NegativeSegment(c: Cipher, k: bytes, encrypt: bool, iv: bytes, segment: int, m: bytes)
    requires IsBlockCipher(c) && |iv| == BLOCK && Whole(|m|) && |m| <= 0x10_0000_0000_0000
    requires -0x8000_0000 <= segment < 0 && segment % BLOCK == 0
    ensures Whole(SizeT(segment)) && Segmented(c, k, encrypt, iv, SizeT(segment), m) == OnePass(c, k, encrypt, iv, m)
  {
    hide OnePass, Segmented;
    var seg := SizeT(segment);
    SegmentedNothing(c, k, encrypt, iv, seg);
    EmptyPass(c, k, encrypt, iv);
    if m != [] {
      SegmentStep(c, k, encrypt, iv, seg, m);
      assert m[..|m|] == m && m[|m|..] == [];
    }
  }
}
