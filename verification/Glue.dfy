/** The entry points of src/zucrypt_crypt.c. Each owns its native context through an external pointer
    that exists, with its finalizer registered, before the context does. */
module Glue {
  import opened Bytes
  import opened Options
  import opened Statuses
  import opened Buffers
  import opened Digest
  import opened RHeap
  import L = Lifetimes
  import opened Cbc
  import Aes
  import opened CbcLoops

  /** How a .Call ends: R longjmps out of it, or it returns a status and perhaps a value. */
  datatype Outcome = Jumped | Returned(st: Status, value: Option<nat>)

  function ValueOf(r: Outcome): set<nat> {
    if r.Returned? && r.value.Some? then {r.value.value} else {}
  }

  // --- what the entry points promise ------------------------------------

  /** R is consistent, every unfreed context has its one owner, and the accounts of contexts balance. */
  ghost predicate Well(a: Snapshot) {
    && Sane(a.heap, a.roots + (set p | p in a.protect), a.next) && Owned(a.heap)
    && Accounted(a.heap.native, a.created, a.freed, a.next, a.events)
  }

  /** A .Call from `b` to `a`: all is well, R has the value, and it was left by a longjmp exactly when
      one of the R calls it made jumped. */
  ghost predicate Ended(jumps: nat -> bool, b: Snapshot, a: Snapshot, r: Outcome) {
    && Well(a) && a.protect == b.protect && a.roots == b.roots + ValueOf(r)
    && b.calls <= a.calls && (r == Jumped <==> !Quiet(jumps, b.calls, a.calls))
  }

  /** Every R variable there was, but for those in `mine`, is the same object, and the context it holds, if
      any, is the same one in the same state. */
  ghost predicate Undisturbed(b: Snapshot, a: Snapshot, mine: set<nat>) {
    Same(b.heap, a.heap, b.roots - mine)
  }

  /** One context was made, or none. */
  ghost predicate Made(b: Snapshot, a: Snapshot, one: bool) {
    b.created <= a.created && |a.created| == |b.created| + if one then 1 else 0
  }

  /** The value of a call: a raw vector of these bytes, or nothing when it failed. */
  ghost predicate Gives(a: Snapshot, r: Outcome, w: bytes)
    requires r.Returned?
  {
    if r.st == Ok then r.value.Some? && r.value.value in a.heap.objects && a.heap.objects[r.value.value] == RawVec(w)
    else r.value == None
  }

  /** The status of the chunk loop: that of the first update to fail. */
  function FeedStatus(total: nat, ps: nat -> Status, from: nat): Status
    decreases if from < total then total - from else 0
  {
    if from >= total then Ok
    else if ps(from) != Ok then ps(from)
    else FeedStatus(total, ps, from + Min(total - from, CHUNK))
  }

  /** How many chunks are fed, and so how often the loop checks for an interrupt: up to the first to fail. */
  function FeedTurns(total: nat, ps: nat -> Status, from: nat): nat
    decreases if from < total then total - from else 0
  {
    if from >= total then 0
    else if ps(from) != Ok then 1
    else 1 + FeedTurns(total, ps, from + Min(total - from, CHUNK))
  }

  /** The same for the loop that runs a cipher. */
  function PassTurns(total: nat, passes: nat -> Aes.Pass, from: nat): nat
    decreases if from < total then total - from else 0
  {
    if from >= total then 0
    else
      var n := Min(total - from, CHUNK);
      if PieceStatus(n, true, passes(from)) != Ok then 1 else 1 + PassTurns(total, passes, from + n)
  }

  /** When nothing fails, one check for every megabyte that was begun. */
  lemma {:induction false} TurnsExactly(total: nat, ps: nat -> Status, from: nat)
    requires from <= total && forall o: nat :: ps(o) == Ok
    ensures FeedTurns(total, ps, from) == (total - from + 1048575) / 1048576
    decreases total - from
  {
    if from < total {
      TurnsExactly(total, ps, from + Min(total - from, CHUNK));
    }
  }

  /** Each loop checks once for a chunk that goes well, and then as often as the rest takes; a chunk that fails is
      its last. */
  lemma TurnsFirst(total: nat, ps: nat -> Status, passes: nat -> Aes.Pass, from: nat, n: nat)
    requires from < total && n == if total - from < 1048576 then total - from else 1048576
    ensures FeedTurns(total, ps, from) == if ps(from) != Ok then 1 else 1 + FeedTurns(total, ps, from + n)
    ensures n % 16 == 0 && passes(from).Completes? ==> PassTurns(total, passes, from) == 1 + PassTurns(total, passes, from + n)
    ensures n % 16 != 0 || passes(from).Miscounts? ==> PassTurns(total, passes, from) == 1
    ensures (passes(from).SetupFails? || passes(from).UpdateFails? || passes(from).FinishFails?) && passes(from).ps != Ok ==>
              PassTurns(total, passes, from) == 1
    ensures FeedTurns(total, ps, total) == 0 && PassTurns(total, passes, total) == 0
  {
  }

  /** How many R calls a digest makes if none jumps: two for the owner, one for every chunk, one for the output, and
      six for the result. */
  function DigestCalls(created: Status, data: bytes, ps: nat -> Status): nat {
    if created != Ok then 2 + 6
    else 2 + FeedTurns(|data|, ps, 0) + (if FeedStatus(|data|, ps, 0) == Ok then 1 else 0) + 6
  }

  lemma DigestCallsExactly(created: Status, data: bytes, ps: nat -> Status)
    ensures created != Ok ==> DigestCalls(created, data, ps) == 8
    ensures created == Ok && FeedStatus(|data|, ps, 0) != Ok ==> DigestCalls(created, data, ps) == 8 + FeedTurns(|data|, ps, 0)
    ensures created == Ok && FeedStatus(|data|, ps, 0) == Ok ==> DigestCalls(created, data, ps) == 9 + FeedTurns(|data|, ps, 0)
  {
    hide FeedTurns, FeedStatus;
  }

  /** A digest of another size than the algorithm's is an internal error. */
  function SizeChecked(f: Function, reply: Digest.Reply): Status {
    if reply.st == Ok && |reply.out| != f.size then Internal else reply.st
  }

  function DigestStatus(f: Function, created: Status, data: bytes, ps: nat -> Status, last: Status): Status {
    if created != Ok then created
    else if FeedStatus(|data|, ps, 0) != Ok then FeedStatus(|data|, ps, 0)
    else SizeChecked(f, Digest.Reply(last, f.of(data)))
  }

  /** The loop ends with the answer to the first megabyte that is refused. */
  lemma FeedStatusFirst(total: nat, ps: nat -> Status, from: nat, n: nat)
    requires from < total && n == if total - from < 1048576 then total - from else 1048576
    ensures ps(from) != Ok ==> FeedStatus(total, ps, from) == ps(from)
    ensures ps(from) == Ok ==> FeedStatus(total, ps, from) == FeedStatus(total, ps, from + n)
    ensures FeedStatus(total, ps, total) == Ok
  {
  }

  /** What a digest call returns: what its constructor returned, or the first update to fail, or finish; and an
      internal error exactly when all went well but for the size of the result. */
  lemma DigestStatusExactly(f: Function, created: Status, data: bytes, ps: nat -> Status, last: Status)
    ensures var st, fed := DigestStatus(f, created, data, ps, last), FeedStatus(|data|, ps, 0);
            && (created != Ok ==> st == created) && (created == Ok && fed != Ok ==> st == fed)
            && (created == Ok && fed == Ok && last != Ok ==> st == last)
            && (created == Ok && fed == Ok && last == Ok ==> st == if |f.of(data)| == f.size then Ok else Internal)
  {
    hide FeedStatus;
  }

  /** `zucrypt_hash` and `zucrypt_hmac`: a context is made exactly when the two R calls that make its
      owner return; whatever follows, R's variables hold what they held; and unless R jumps, the
      context is gone again and the value is the function of the data. */
  ghost predicate DigestDid(jumps: nat -> bool, b: Snapshot, a: Snapshot, f: Function, created: Status, data: bytes,
                            ps: nat -> Status, last: Status, r: Outcome)
  {
    && Ended(jumps, b, a, r) && Undisturbed(b, a, {})
    && Made(b, a, created == Ok && Quiet(jumps, b.calls, b.calls + 2))
    && (r.Returned? ==>
          && a.heap.native.Keys <= b.heap.native.Keys
          && r.st == DigestStatus(f, created, data, ps, last) && Gives(a, r, f.of(data))
          && a.calls == b.calls + DigestCalls(created, data, ps))
  }

  /** A constructor whose owner takes `n` R calls: on success R's pointer holds the new context `x`. */
  ghost predicate ConstructorDid(jumps: nat -> bool, b: Snapshot, a: Snapshot, x: Native, n: nat, created: Status, r: Outcome) {
    && Ended(jumps, b, a, r) && Undisturbed(b, a, {})
    && Made(b, a, created == Ok && Quiet(jumps, b.calls, b.calls + n))
    && (r.Returned? ==> r.st == created && (r.value.Some? <==> created == Ok) && a.calls == b.calls + n + 6)
    && (r.Returned? && created != Ok ==> a.heap.native.Keys <= b.heap.native.Keys)
    && (r.Returned? && created == Ok ==>
          && a.created != [] && r.value.value in a.heap.objects
          && var c := a.created[|a.created| - 1];
             && a.heap.objects[r.value.value] == ExtPtr(Some(c), true) && c !in b.heap.native
             && c in a.heap.native && a.heap.native[c] == x && a.heap.native.Keys <= b.heap.native.Keys + {c})
  }

  /** A pointer to a digest or MAC stream that R holds; `stream_tag` refuses any other. */
  predicate IsStream(native: map<nat, Native>, objects: map<nat, Object>, roots: set<nat>, ptr: nat) {
    && ptr in roots && ptr in objects && objects[ptr].ExtPtr?
    && (objects[ptr].addr.Some? ==> objects[ptr].addr.value in native && native[objects[ptr].addr.value].DigestCtx?)
  }

  ghost predicate HasStream(b: Snapshot, ptr: nat) {
    IsStream(b.heap.native, b.heap.objects, b.roots, ptr)
  }

  /** `zucrypt_stream_update`: the context absorbs the data, whether or not R jumps afterwards. */
  ghost predicate UpdateDid(jumps: nat -> bool, b: Snapshot, a: Snapshot, ptr: nat, data: bytes, ps: Status, r: Outcome)
    requires HasStream(b, ptr)
  {
    && Ended(jumps, b, a, r) && Undisturbed(b, a, {ptr}) && Made(b, a, false)
    && a.heap.native.Keys <= b.heap.native.Keys
    && ptr in a.heap.objects && a.heap.objects[ptr] == b.heap.objects[ptr]
    && match b.heap.objects[ptr].addr
       case None => r.Returned? ==> r == Returned(InvalidArgument, None) && a.calls == b.calls + 1
       case Some(c) =>
         var x := b.heap.native[c];
         var (state, reply) := Step(x.f, x.state, Update(Given(data), ps));
         && c in a.heap.native && a.heap.native[c] == x.(state := state)
         && (r.Returned? ==> r == Returned(reply.st, None) && a.calls == b.calls + 2)
  }

  /** `zucrypt_stream_finish`: the context is freed exactly when the output could be allocated, even if
      R jumps afterwards, and otherwise it is as it was. */
  ghost predicate FinishDid(jumps: nat -> bool, b: Snapshot, a: Snapshot, ptr: nat, last: Status, r: Outcome)
    requires HasStream(b, ptr)
  {
    && Ended(jumps, b, a, r) && Undisturbed(b, a, {ptr}) && Made(b, a, false)
    && a.heap.native.Keys <= b.heap.native.Keys
    && match b.heap.objects[ptr].addr
       case None => Same(b.heap, a.heap, {ptr}) && (r.Returned? ==> r == Returned(InvalidArgument, None) && a.calls == b.calls + 6)
       case Some(c) =>
         var x := b.heap.native[c];
         var reply := Step(x.f, x.state, Digest.Finish(false, x.f.size, last)).1;
         && (if jumps(b.calls) then Same(b.heap, a.heap, {ptr})
             else c !in a.heap.native && ptr in a.heap.objects && a.heap.objects[ptr] == ExtPtr(None, true))
         && (r.Returned? ==> r.st == SizeChecked(x.f, reply) && Gives(a, r, reply.out) && a.calls == b.calls + 7)
  }

  /** `zucrypt_aes_cbc`: as for a digest, and the value is one CBC pass over the data. */
  ghost predicate AesDid(jumps: nat -> bool, b: Snapshot, a: Snapshot, cipher: Cipher, encrypt: bool, key: bytes, iv: bytes,
                         data: bytes, created: Status, passes: nat -> Aes.Pass, r: Outcome)
    requires IsBlockCipher(cipher) && |iv| == BLOCK
  {
    && Ended(jumps, b, a, r) && Undisturbed(b, a, {})
    && Made(b, a, created == Ok && Quiet(jumps, b.calls, b.calls + 2))
    && (r.Returned? ==>
          && a.heap.native.Keys <= b.heap.native.Keys
          && r.st == (if created != Ok then created else LoopStatus(|data|, CHUNK, true, passes, 0))
          && a.calls == b.calls + (if created != Ok then 2 + 6 else 2 + 1 + PassTurns(|data|, passes, 0) + 6)
          && (r.st == Ok ==> Whole(|data|))
          && Gives(a, r, if r.st == Ok then Aes.OnePass(cipher, key, encrypt, iv, data) else []))
  }

  /** A full collection: exactly the contexts that R variables hold are left. */
  ghost predicate CollectDid(b: Snapshot, a: Snapshot) {
    && Well(a) && a.protect == b.protect && a.roots == b.roots && a.calls == b.calls && a.created == b.created
    && Undisturbed(b, a, {}) && a.heap.native.Keys == HeldBy(a.heap, a.roots)
  }

  // --- the middle of a call ---------------------------------------------

  function Begin(b: Snapshot, mine: set<nat>): Frame {
    Frame(b.heap, b.protect, b.roots, b.next, mine, b.calls)
  }

  /** After a call: R is consistent again, and contexts are owned. */
  ghost predicate Settled(s: Session, fr: Frame, r: Outcome)
    reads s
  {
    && s.Wf() && Owned(s.View()) && s.protect == fr.stack
    && s.roots == fr.roots + ValueOf(r)
    && fr.calls <= s.calls && (r == Jumped <==> !s.Calm(fr))
  }

  lemma EndsCall(s: Session, b: Snapshot, mine: set<nat>, r: Outcome)
    requires Settled(s, Begin(b, mine), r)
    ensures Ended(s.jumps, b, s.Now(), r) && Owned(s.View())
  {
  }

  /** The contexts alive are old ones and at most those in `extra`. */
  ghost predicate NoMore(s: Session, fr: Frame, extra: set<nat>)
    reads s
  {
    s.native.Keys <= fr.start.native.Keys + extra
  }

  /** The frame describes a start where everything was in order. */
  ghost predicate Sound(fr: Frame) {
    && Owned(fr.start)
    && (forall p :: p in fr.start.objects ==> p < fr.limit) && (forall c :: c in fr.start.native ==> c < fr.limit)
    && Gathered(fr.start, fr.mine) && fr.roots <= fr.start.objects.Keys
  }

  /** `result`, then UNPROTECT and return: the end of every entry point. The value, if any, is an object
      the call still protects. */
  method Finish(s: Session, st: Status, value: Option<nat>, base: nat, ghost fr: Frame) returns (r: Outcome)
    requires s.In(fr) && Owned(s.View()) && s.Calm(fr) && base == |fr.stack| && Sound(fr)
    requires value.Some? ==> value.value in s.protect
    modifies s
    ensures r == Jumped || (r == Returned(st, value) && s.calls == old(s.calls) + 6)
    ensures Settled(s, fr, r) && s.native.Keys <= old(s.native.Keys) && s.created == old(s.created)
    ensures Same(fr.start, s.View(), fr.roots - fr.mine)
    ensures Same(old(s.View()), s.View(), old(s.Reach()))
  {
    hide Accounted, Same;
    var jumped := s.Result(value, base, fr);
    GrownSame(fr, s.View());
    if jumped {
      return Jumped;
    }
    s.Return(value, base, fr);
    return Returned(st, value);
  }

  lemma SameHolds(b: Heap, a: Heap, ps: set<nat>, p: nat, c: nat)
    requires Same(b, a, ps) && p in ps && p in b.objects && b.objects[p] == ExtPtr(Some(c), true)
    ensures p in a.objects && a.objects[p] == ExtPtr(Some(c), true)
    ensures c in a.native && c in b.native && a.native[c] == b.native[c]
  {
  }

  lemma SameObject(b: Heap, a: Heap, ps: set<nat>, p: nat)
    requires Same(b, a, ps) && p in ps
    ensures p in b.objects && p in a.objects && a.objects[p] == b.objects[p]
  {
  }

  /** A call that was left by a longjmp: nothing is lost, because the pointer still owns the context. */
  ghost predicate LeftBehind(s: Session, fr: Frame, extra: set<nat>)
    reads s
  {
    s.In(fr) && Owned(s.View()) && NoMore(s, fr, extra) && s.protect == fr.stack && !s.Calm(fr)
  }

  /** A jump leaves everything settled. */
  lemma JumpedSettles(s: Session, fr: Frame, extra: set<nat>)
    requires LeftBehind(s, fr, extra) && Sound(fr)
    ensures Settled(s, fr, Jumped) && NoMore(s, fr, extra)
    ensures Same(fr.start, s.View(), fr.roots - fr.mine)
  {
    GrownSame(fr, s.View());
  }

  /** An empty owner at the start of a call: the pointer, protected, with its finalizer registered. */
  ghost predicate Ready(s: Session, fr: Frame, ptr: nat)
    reads s
  {
    && s.In(fr) && Owned(s.View()) && s.Calm(fr) && NoMore(s, fr, {})
    && ptr >= fr.limit && ptr in s.protect && ptr in s.objects && s.objects[ptr] == ExtPtr(None, true)
  }

  /** The owner first: R_MakeExternalPtr, then R_RegisterCFinalizerEx (also `pkey_ptr`). */
  method MakeOwner(s: Session, base: nat, ghost fr: Frame) returns (jumped: bool, ptr: nat)
    requires s.In(fr) && Owned(s.View()) && s.Calm(fr) && NoMore(s, fr, {}) && base == |fr.stack|
    modifies s
    ensures if jumped then LeftBehind(s, fr, {}) else Ready(s, fr, ptr)
    ensures s.created == old(s.created) && s.calls <= old(s.calls) + 2 && (!jumped ==> s.calls == old(s.calls) + 2)
  {
    hide Owned, Grown, Session.Wf, Quiet;
    jumped, ptr := s.MakeExternalPtr(base, fr);
    if !jumped {
      jumped := s.RegisterFinalizer(ptr, base, fr);
    }
  }

  lemma OwnerIsMine(s: Session, fr: Frame, ptr: nat)
    requires Ready(s, fr, ptr)
    ensures ptr >= fr.limit && ptr in s.protect && Quiet(s.jumps, fr.calls, s.calls)
  {
  }

  /** Then the context, into its owner. */
  method OpenContext(s: Session, ptr: nat, x: Native, ghost fr: Frame) returns (c: nat)
    requires Ready(s, fr, ptr)
    modifies s
    ensures s.In(fr) && Owned(s.View()) && s.Calm(fr) && NoMore(s, fr, {c}) && s.Holds(ptr, c) && s.native[c] == x
    ensures s.protect == old(s.protect) && c >= fr.limit && s.created == old(s.created) + [c] && s.calls == old(s.calls)
  {
    hide Owned, Session.In;
    c := s.CreateInto(ptr, x, fr);
  }

  /** The constructor failed: the pointer stays empty, and the status goes back. */
  method GiveUp(s: Session, st: Status, ptr: nat, base: nat, ghost fr: Frame) returns (r: Outcome)
    requires Ready(s, fr, ptr) && base == |fr.stack| && Sound(fr)
    modifies s
    ensures r == Jumped || (r == Returned(st, None) && s.calls == old(s.calls) + 6)
    ensures Settled(s, fr, r) && NoMore(s, fr, {}) && s.created == old(s.created)
    ensures Same(fr.start, s.View(), fr.roots - fr.mine)
  {
    hide Owned, Session.In;
    r := Finish(s, st, None, base, fr);
  }

  /** A call begins in order. */
  lemma Begins(s: Session, mine: set<nat>)
    requires s.Wf() && Owned(s.View()) && Gathered(s.View(), mine)
    ensures var fr := Begin(s.Now(), mine); s.In(fr) && s.Calm(fr) && Sound(fr) && NoMore(s, fr, {})
    ensures forall c :: c in s.native ==> c < s.next
  {
  }

  /** The two R calls of an owner: a jump in one of them is the whole difference. */
  lemma OwnerCalls(jumps: nat -> bool, from: nat, to: nat, n: nat)
    requires from <= to <= from + n
    ensures !Quiet(jumps, from, to) ==> !Quiet(jumps, from, from + n)
  {
  }

  /** A call that ended before it had a context: R jumped while the owner was made, which takes `n` R
      calls, or the constructor failed. */
  ghost predicate EndedEarly(jumps: nat -> bool, b: Snapshot, a: Snapshot, n: nat, created: Status, r: Outcome) {
    && Ended(jumps, b, a, r) && Undisturbed(b, a, {}) && a.created == b.created
    && (r.Returned? ==> a.heap.native.Keys <= b.heap.native.Keys)
    && (!Quiet(jumps, b.calls, b.calls + n) || created != Ok)
    && (r.Returned? ==> created != Ok && r == Returned(created, None) && a.calls == b.calls + n + 6)
  }

  /** The context is in its owner, which is protected. */
  ghost predicate Opened(s: Session, fr: Frame, ptr: nat, c: nat, x: Native)
    reads s
  {
    && s.In(fr) && Owned(s.View()) && s.Calm(fr) && NoMore(s, fr, {c}) && s.Holds(ptr, c) && s.native[c] == x
    && ptr in s.protect && ptr >= fr.limit && c >= fr.limit
  }

  lemma EndsEarly(s: Session, b: Snapshot, n: nat, created: Status, r: Outcome)
    requires Owned(b.heap) && Settled(s, Begin(b, {}), r) && s.created == b.created && NoMore(s, Begin(b, {}), {})
    requires Same(b.heap, s.View(), b.roots - {})
    requires !Quiet(s.jumps, b.calls, b.calls + n) || created != Ok
    requires r == Jumped || (created != Ok && r == Returned(created, None) && s.calls == b.calls + n + 6)
    ensures EndedEarly(s.jumps, b, s.Now(), n, created, r)
  {
    hide Settled, Ended, Quiet;
    EndsCall(s, b, {}, r);
  }

  /** The start of every entry point that makes a context, after `k` R calls: its owner, and then the
      context into it. */
  method Acquire(s: Session, x: Native, created: Status, base: nat, ghost k: nat, ghost b: Snapshot)
    returns (early: Option<Outcome>, ptr: nat, c: nat)
    requires var fr := Begin(b, {});
             s.In(fr) && Owned(s.View()) && s.Calm(fr) && Sound(fr) && NoMore(s, fr, {}) && base == |fr.stack|
    requires s.created == b.created && s.calls == b.calls + k
    modifies s
    ensures early.Some? ==> EndedEarly(s.jumps, b, s.Now(), k + 2, created, early.value)
    ensures early.None? ==>
              && created == Ok && Opened(s, Begin(b, {}), ptr, c, x)
              && s.created == b.created + [c] && s.calls == b.calls + k + 2 && Quiet(s.jumps, b.calls, b.calls + k + 2)
  {
    hide Owned, Ready, LeftBehind, Session.In, Session.Wf, Quiet, Ended, Settled, EndedEarly;
    ghost var fr := Begin(b, {});
    c := 0;
    var jumped;
    jumped, ptr := MakeOwner(s, base, fr);
    if jumped {
      JumpedSettles(s, fr, {});
      LeftIsNotQuiet(s, fr, {});
      OwnerCalls(s.jumps, b.calls, s.calls, k + 2);
      EndsEarly(s, b, k + 2, created, Jumped);
      return Some(Jumped), ptr, c;
    }
    if created != Ok {
      var r := GiveUp(s, created, ptr, base, fr);
      EndsEarly(s, b, k + 2, created, r);
      return Some(r), ptr, c;
    }
    OwnerIsMine(s, fr, ptr);
    c := OpenContext(s, ptr, x, fr);
    return None, ptr, c;
  }

  lemma LeftIsNotQuiet(s: Session, fr: Frame, extra: set<nat>)
    requires LeftBehind(s, fr, extra)
    ensures !Quiet(s.jumps, fr.calls, s.calls) && fr.calls <= s.calls
  {
  }

  // --- digests ----------------------------------------------------------

  /** One chunk, from a handle that has absorbed the data so far. */
  lemma UpdateStep(f: Function, data: bytes, offset: nat, n: nat, ps: Status)
    requires n > 0 && offset + n <= |data|
    ensures var step := Step(f, State(true, Absorbing(data[..offset])), Update(Given(data[offset..offset + n]), ps));
            step.1.st == ps && (ps == Ok ==> step.0 == State(true, Absorbing(data[..offset + n])))
  {
    assert data[..offset] + data[offset..offset + n] == data[..offset + n];
  }

  /** In the middle of a call: its pointer is reachable and holds its digest context. */
  ghost predicate Alive(s: Session, fr: Frame, ptr: nat, h: nat, f: Function)
    reads s
  {
    && s.In(fr) && Owned(s.View()) && s.Calm(fr) && NoMore(s, fr, {h}) && !Foreign(fr, h)
    && ptr in s.Reach() && s.Holds(ptr, h) && s.native[h].DigestCtx? && s.native[h].f == f
  }

  ghost function StateOf(s: Session, h: nat): State
    reads s
  {
    if h in s.native && s.native[h].DigestCtx? then s.native[h].state else State(false, Unusable)
  }

  /** One turn of a chunk loop: an update, then an interrupt check that may longjmp with the context
      alive and owned by the pointer alone. */
  method Chunk(s: Session, f: Function, piece: bytes, ps: Status, ptr: nat, h: nat, base: nat, ghost fr: Frame)
    returns (jumped: bool, st: Status)
    requires Alive(s, fr, ptr, h, f) && base == |fr.stack|
    modifies s
    ensures s.created == old(s.created) && s.calls == old(s.calls) + 1 && jumped == s.jumps(old(s.calls))
    ensures jumped ==> LeftBehind(s, fr, {h})
    ensures !jumped ==> Alive(s, fr, ptr, h, f) && s.protect == old(s.protect)
    ensures !jumped ==> st == Step(f, old(StateOf(s, h)), Update(Given(piece), ps)).1.st
    ensures !jumped ==> StateOf(s, h) == Step(f, old(StateOf(s, h)), Update(Given(piece), ps)).0
  {
    hide Step, Owned, Same, Session.In, Quiet;
    var reply := s.DigestCall(h, Update(Given(piece), ps), fr);
    st := reply.st;
    ghost var before := s.View();
    jumped := s.MayJump(base, fr);
    if !jumped {
      SameHolds(before, s.View(), s.Reach(), ptr, h);
    }
  }

  /** The chunk loop of `zucrypt_hash` and `zucrypt_hmac`. */
  method Absorb(s: Session, f: Function, data: bytes, ps: nat -> Status, ptr: nat, h: nat, base: nat, ghost fr: Frame)
    returns (jumped: bool, st: Status)
    requires Alive(s, fr, ptr, h, f) && StateOf(s, h) == FRESH && base == |fr.stack|
    modifies s
    ensures s.created == old(s.created)
    ensures jumped ==> LeftBehind(s, fr, {h})
    ensures !jumped ==> Alive(s, fr, ptr, h, f) && s.protect == old(s.protect) && st == FeedStatus(|data|, ps, 0)
    ensures !jumped ==> s.calls == old(s.calls) + FeedTurns(|data|, ps, 0)
    ensures !jumped && st == Ok ==> StateOf(s, h) == State(true, Absorbing(data))
  {
    hide Step, Alive, LeftBehind, StateOf;
    jumped, st := false, Ok;
    var offset := 0;
    assert data[..0] == [];
    while offset < |data| && st == Ok
      invariant 0 <= offset <= |data|
      invariant Alive(s, fr, ptr, h, f) && s.protect == old(s.protect) && s.created == old(s.created)
      invariant st == Ok ==> StateOf(s, h) == State(true, Absorbing(data[..offset]))
      invariant FeedStatus(|data|, ps, 0) == if st == Ok then FeedStatus(|data|, ps, offset) else st
      invariant old(s.calls) + FeedTurns(|data|, ps, 0) == s.calls + if st == Ok then FeedTurns(|data|, ps, offset) else 0
      decreases |data| - offset
    {
      var n := Min(|data| - offset, CHUNK);
      jumped, st := Chunk(s, f, data[offset..offset + n], ps(offset), ptr, h, base, fr);
      if jumped {
        return;
      }
      UpdateStep(f, data, offset, n, ps(offset));
      offset := offset + n;
    }
    assert data[..|data|] == data;
  }

  /** The success path: the output vector, the native finish, the eager release, and the result. */
  method FinishDigest(s: Session, f: Function, ptr: nat, h: nat, last: Status, base: nat, ghost fr: Frame)
    returns (r: Outcome)
    requires Alive(s, fr, ptr, h, f) && base == |fr.stack| && Sound(fr) && !Foreign(fr, ptr)
    modifies s
    ensures Settled(s, fr, r) && NoMore(s, fr, {h}) && s.created == old(s.created)
    ensures s.jumps(old(s.calls)) ==> r == Jumped && Same(old(s.View()), s.View(), {ptr})
    ensures !s.jumps(old(s.calls)) ==> h !in s.native && ptr in s.objects && s.objects[ptr] == ExtPtr(None, true)
    ensures Same(fr.start, s.View(), fr.roots - fr.mine)
    ensures var reply := Step(f, old(StateOf(s, h)), Digest.Finish(false, f.size, last)).1;
            r.Returned? ==> r.st == SizeChecked(f, reply) && Gives(s.Now(), r, reply.out) && s.calls == old(s.calls) + 7
  {
    hide Owned, Same, Step, Session.In, Quiet;
    ghost var before, kept := s.View(), s.Reach();
    var jumped, out := s.AllocRaw(f.size, base, fr);
    SameHolds(before, s.View(), kept, ptr, h);
    if jumped {
      SameSome(before, s.View(), kept, {ptr});
      JumpedSettles(s, fr, {h});
      return Jumped;
    }
    var reply := s.DigestCall(h, Digest.Finish(false, f.size, last), fr);
    if |reply.out| == f.size {
      s.FillRaw(out, reply.out, fr);
    }
    s.ReleasePtr(ptr, fr);
    var st := SizeChecked(f, reply);
    ghost var filled, reach := s.View(), s.Reach();
    r := Finish(s, st, if st == Ok then Some(out) else None, base, fr);
    SameObject(filled, s.View(), reach, ptr);
    SameObject(filled, s.View(), reach, out);
  }

  /** A native failure after the context was made: the eager release, and the status. */
  method Abandon(s: Session, st: Status, ptr: nat, h: nat, f: Function, base: nat, ghost fr: Frame) returns (r: Outcome)
    requires Alive(s, fr, ptr, h, f) && base == |fr.stack| && Sound(fr) && !Foreign(fr, ptr)
    modifies s
    ensures r == Jumped || (r == Returned(st, None) && s.calls == old(s.calls) + 6)
    ensures Settled(s, fr, r) && NoMore(s, fr, {h}) && h !in s.native && s.created == old(s.created)
    ensures Same(fr.start, s.View(), fr.roots - fr.mine)
  {
    hide Owned, Session.In, Quiet;
    s.ReleasePtr(ptr, fr);
    r := Finish(s, st, None, base, fr);
  }

  lemma FinishStep(f: Function, data: bytes, last: Status)
    ensures var reply := Step(f, State(true, Absorbing(data)), Digest.Finish(false, f.size, last)).1;
            reply.st == last && (last == Ok ==> reply.out == f.of(data))
  {
  }

  /** The call after its context was made. */
  method RunDigest(s: Session, f: Function, data: bytes, ps: nat -> Status, last: Status, ptr: nat, h: nat, base: nat,
                   ghost fr: Frame)
    returns (r: Outcome)
    requires Alive(s, fr, ptr, h, f) && StateOf(s, h) == FRESH && base == |fr.stack| && Sound(fr) && !Foreign(fr, ptr)
    modifies s
    ensures Settled(s, fr, r) && NoMore(s, fr, {h}) && s.created == old(s.created) && (r.Returned? ==> h !in s.native)
    ensures Same(fr.start, s.View(), fr.roots - fr.mine)
    ensures r.Returned? ==> r.st == DigestStatus(f, Ok, data, ps, last) && Gives(s.Now(), r, f.of(data))
    ensures r.Returned? ==> s.calls + 2 == old(s.calls) + DigestCalls(Ok, data, ps)
  {
    hide Owned, Alive, LeftBehind, Step, Session.In, Session.Wf, Quiet, FeedStatus, FeedTurns;
    var jumped, st := Absorb(s, f, data, ps, ptr, h, base, fr);
    if jumped {
      JumpedSettles(s, fr, {h});
      return Jumped;
    }
    if st != Ok {
      r := Abandon(s, st, ptr, h, f, base, fr);
      return;
    }
    FinishStep(f, data, last);
    r := FinishDigest(s, f, ptr, h, last, base, fr);
  }

  /** A digest call that did not get as far as a context. */
  lemma NoDigest(jumps: nat -> bool, b: Snapshot, a: Snapshot, f: Function, created: Status, data: bytes,
                 ps: nat -> Status, last: Status, r: Outcome)
    requires EndedEarly(jumps, b, a, 2, created, r)
    ensures DigestDid(jumps, b, a, f, created, data, ps, last, r)
  {
    hide Ended, Undisturbed, Quiet, FeedStatus, FeedTurns;
  }

  lemma OpenedDigest(s: Session, fr: Frame, ptr: nat, h: nat, mac: bool, f: Function)
    requires Opened(s, fr, ptr, h, DigestCtx(mac, f, FRESH)) && Sound(fr)
    ensures Alive(s, fr, ptr, h, f) && StateOf(s, h) == FRESH && !Foreign(fr, ptr) && h !in fr.start.native
  {
  }

  lemma DigestEnds(s: Session, b: Snapshot, f: Function, data: bytes, ps: nat -> Status, last: Status, h: nat, r: Outcome)
    requires Owned(b.heap) && s.created == b.created + [h] && h !in b.heap.native && Quiet(s.jumps, b.calls, b.calls + 2)
    requires var fr := Begin(b, {}); Settled(s, fr, r) && NoMore(s, fr, {h}) && (r.Returned? ==> h !in s.native)
    requires Same(b.heap, s.View(), b.roots - {})
    requires r.Returned? ==> r.st == DigestStatus(f, Ok, data, ps, last) && Gives(s.Now(), r, f.of(data))
    requires r.Returned? ==> s.calls == b.calls + DigestCalls(Ok, data, ps)
    ensures DigestDid(s.jumps, b, s.Now(), f, Ok, data, ps, last, r)
  {
    hide Settled, Ended, FeedStatus, Gives, Quiet, DigestCalls;
    EndsCall(s, b, {}, r);
  }

  /** `zucrypt_hash` and `zucrypt_hmac`: f is the hash, or the MAC under the key. `created` is what the
      native constructor returns, `ps(offset)` and `last` the backend's answers. */
  method ZucryptDigest(s: Session, mac: bool, f: Function, created: Status, data: bytes, ps: nat -> Status, last: Status)
    returns (r: Outcome)
    requires s.Wf() && Owned(s.View())
    modifies s
    ensures DigestDid(s.jumps, old(s.Now()), s.Now(), f, created, data, ps, last, r)
  {
    hide Owned, Opened, Session.In, Session.Wf, Alive, StateOf, DigestDid, EndedEarly, Settled, Sound, Quiet, Session.Calm, DigestStatus, DigestCalls;
    ghost var b := s.Now();
    ghost var fr := Begin(b, {});
    Begins(s, {});
    var base := |s.protect|;
    var early, ptr, h := Acquire(s, DigestCtx(mac, f, FRESH), created, base, 0, b);
    if early.Some? {
      NoDigest(s.jumps, b, s.Now(), f, created, data, ps, last, early.value);
      return early.value;
    }
    OpenedDigest(s, fr, ptr, h, mac, f);
    r := RunDigest(s, f, data, ps, last, ptr, h, base, fr);
    DigestEnds(s, b, f, data, ps, last, h, r);
  }

  // --- streams and keys -------------------------------------------------

  lemma NoConstructor(jumps: nat -> bool, b: Snapshot, a: Snapshot, x: Native, n: nat, created: Status, r: Outcome)
    requires EndedEarly(jumps, b, a, n, created, r)
    ensures ConstructorDid(jumps, b, a, x, n, created, r)
  {
    hide Ended, Undisturbed, Quiet;
  }

  /** The pointer, with what it holds, becomes the value of the call. */
  method HandOver(s: Session, x: Native, ptr: nat, c: nat, base: nat, n: nat, ghost b: Snapshot) returns (r: Outcome)
    requires Opened(s, Begin(b, {}), ptr, c, x) && Sound(Begin(b, {})) && base == |b.protect|
    requires s.created == b.created + [c] && s.calls == b.calls + n && Quiet(s.jumps, b.calls, b.calls + n)
    modifies s
    ensures ConstructorDid(s.jumps, b, s.Now(), x, n, Ok, r)
  {
    hide Owned, Same, Session.In, Settled, Ended, Quiet;
    ghost var fr, before, reach := Begin(b, {}), s.View(), s.Reach();
    r := Finish(s, Ok, Some(ptr), base, fr);
    EndsCall(s, b, {}, r);
    SameHolds(before, s.View(), reach, ptr, c);
  }

  /** `zucrypt_pkey_parse`, `zucrypt_pkey_generate`, `zucrypt_pkey_import` and `zucrypt_pkey_public`: the
      owner from `pkey_ptr`, the key into it, and `pkey_result`. */
  method ZucryptPkeyNew(s: Session, created: Status) returns (r: Outcome)
    requires s.Wf() && Owned(s.View())
    modifies s
    ensures ConstructorDid(s.jumps, old(s.Now()), s.Now(), PkeyCtx, 2, created, r)
  {
    hide Owned, Opened, Session.In, Session.Wf, EndedEarly, ConstructorDid, Quiet, Session.Calm, Sound;
    ghost var b := s.Now();
    Begins(s, {});
    var base := |s.protect|;
    var early, ptr, c := Acquire(s, PkeyCtx, created, base, 0, b);
    if early.Some? {
      NoConstructor(s.jumps, b, s.Now(), PkeyCtx, 2, created, early.value);
      return early.value;
    }
    r := HandOver(s, PkeyCtx, ptr, c, base, 2, b);
  }

  /** `zucrypt_hash_stream_new` and `zucrypt_hmac_stream_new`, whose pointer has a tag of two integers. */
  method StreamNew(s: Session, mac: bool, f: Function, created: Status) returns (r: Outcome)
    requires s.Wf() && Owned(s.View())
    modifies s
    ensures ConstructorDid(s.jumps, old(s.Now()), s.Now(), DigestCtx(mac, f, FRESH), 3, created, r)
  {
    hide Owned, Opened, Session.Wf, EndedEarly, ConstructorDid, Same, Grown, Sane;
    ghost var b := s.Now();
    ghost var fr := Begin(b, {});
    Begins(s, {});
    var base := |s.protect|;
    var jumped, tag := s.AllocRaw(2, base, fr);
    if jumped {
      JumpedSettles(s, fr, {});
      OwnerCalls(s.jumps, b.calls, s.calls, 3);
      EndsEarly(s, b, 3, created, Jumped);
      NoConstructor(s.jumps, b, s.Now(), DigestCtx(mac, f, FRESH), 3, created, Jumped);
      return Jumped;
    }
    var early, ptr, c := Acquire(s, DigestCtx(mac, f, FRESH), created, base, 1, b);
    if early.Some? {
      NoConstructor(s.jumps, b, s.Now(), DigestCtx(mac, f, FRESH), 3, created, early.value);
      return early.value;
    }
    r := HandOver(s, DigestCtx(mac, f, FRESH), ptr, c, base, 3, b);
  }

  lemma ContextsAreNoObjects(s: Session, ptr: nat)
    requires s.Wf() && Owned(s.View()) && ptr in s.objects && s.objects[ptr].ExtPtr?
    ensures s.objects[ptr].addr.Some? ==> s.objects[ptr].addr.value in s.native && s.objects[ptr].addr.value !in s.objects
    ensures s.roots <= s.objects.Keys
    ensures Gathered(s.View(), {ptr})
    ensures s.objects[ptr].addr.Some? ==> Gathered(s.View(), {ptr, s.objects[ptr].addr.value})
  {
  }

  /** `n` points where R may longjmp, and the status as an integer. */
  method Conclude(s: Session, ptr: nat, st: Status, n: nat, base: nat, ghost fr: Frame) returns (r: Outcome)
    requires s.In(fr) && Owned(s.View()) && s.Calm(fr) && base == |fr.stack| && Sound(fr) && s.protect == fr.stack
    requires ptr in fr.roots && ptr in s.objects
    modifies s
    ensures r == Jumped || (r == Returned(st, None) && s.calls == old(s.calls) + n)
    ensures Settled(s, fr, r) && s.native.Keys <= old(s.native.Keys) && s.created == old(s.created)
    ensures Same(fr.start, s.View(), fr.roots - fr.mine)
    ensures Same(old(s.View()), s.View(), {ptr})
  {
    hide Owned, Sane, Grown, Same, Accounted;
    var jumped, i := false, 0;
    ghost var start, reach := s.View(), s.Reach();
    SameSelf(start, reach, s.next);
    while i < n && !jumped
      invariant s.In(fr) && Owned(s.View()) && s.native.Keys <= old(s.native.Keys) && (jumped <==> !s.Calm(fr))
      invariant s.protect == fr.stack && s.created == old(s.created) && Same(start, s.View(), reach) && s.Reach() == reach
      invariant i <= n && s.calls == old(s.calls) + i
      decreases n - i
    {
      ghost var middle := s.View();
      jumped := s.MayJump(base, fr);
      SameTwice(start, middle, s.View(), reach);
      i := i + 1;
    }
    SameSome(start, s.View(), reach, {ptr});
    GrownSame(fr, s.View());
    r := if jumped then Jumped else Returned(st, None);
  }

  lemma SameContext(b: Heap, a: Heap, p: nat)
    requires Same(b, a, {p}) && p in b.objects && b.objects[p].ExtPtr? && b.objects[p].addr.Some?
    ensures var c := b.objects[p].addr.value; c in a.native && c in b.native && a.native[c] == b.native[c]
  {
  }

  /** `zucrypt_stream_update` on a pointer that R holds: the update, then the interrupt check and the
      status as an integer; a stream that is finished has only the latter. */
  method StreamUpdate(s: Session, ptr: nat, data: bytes, ps: Status) returns (r: Outcome)
    requires s.Wf() && Owned(s.View()) && IsStream(s.native, s.objects, s.roots, ptr)
    modifies s
    ensures UpdateDid(s.jumps, old(s.Now()), s.Now(), ptr, data, ps, r)
  {
    hide Step, Sane, Owned, Grown, Same, Session.Wf, Ended, Quiet, Settled, HeldBy;
    ghost var b := s.Now();
    ghost var mine := if s.objects[ptr].addr.Some? then {ptr, s.objects[ptr].addr.value} else {ptr};
    ContextsAreNoObjects(s, ptr);
    Begins(s, mine);
    ghost var fr := Begin(b, mine);
    var base := |s.protect|;
    assert fr.roots - fr.mine == fr.roots - {ptr};
    if s.objects[ptr].addr.None? {
      r := Conclude(s, ptr, InvalidArgument, 1, base, fr);
      EndsCall(s, b, mine, r);
      SameObject(b.heap, s.View(), {ptr}, ptr);
      return;
    }
    var reply := s.DigestCall(s.objects[ptr].addr.value, Update(Given(data), ps), fr);
    ghost var before := s.View();
    r := Conclude(s, ptr, reply.st, 2, base, fr);
    EndsCall(s, b, mine, r);
    SameObject(before, s.View(), {ptr}, ptr);
    SameContext(before, s.View(), ptr);
  }

  /** `zucrypt_stream_finish` on a pointer that R holds. */
  method StreamFinish(s: Session, ptr: nat, last: Status) returns (r: Outcome)
    requires s.Wf() && Owned(s.View()) && IsStream(s.native, s.objects, s.roots, ptr)
    modifies s
    ensures FinishDid(s.jumps, old(s.Now()), s.Now(), ptr, last, r)
  {
    hide Step, Sane, Grown, Same, Session.Wf, Ended, Quiet, Settled, HeldBy;
    ghost var b := s.Now();
    ContextsAreNoObjects(s, ptr);
    if s.objects[ptr].addr.None? {
      Begins(s, {ptr});
      ghost var reach := s.Reach();
      r := Finish(s, InvalidArgument, None, |s.protect|, Begin(b, {ptr}));
      SameSome(b.heap, s.View(), reach, {ptr});
      EndsCall(s, b, {ptr}, r);
      return;
    }
    var c := s.objects[ptr].addr.value;
    Begins(s, {ptr, c});
    ghost var fr := Begin(b, {ptr, c});
    assert fr.roots - fr.mine == fr.roots - {ptr};
    r := FinishDigest(s, s.native[c].f, ptr, c, last, |s.protect|, fr);
    EndsCall(s, b, {ptr, c}, r);
  }

  // --- AES --------------------------------------------------------------

  /** In the middle of `zucrypt_aes_cbc`: the pointer holds the AES context, the output is protected. */
  ghost predicate AliveAes(s: Session, fr: Frame, ptr: nat, c: nat, out: nat, total: nat)
    reads s
  {
    && s.In(fr) && Owned(s.View()) && s.Calm(fr) && NoMore(s, fr, {c}) && !Foreign(fr, c) && !Foreign(fr, ptr)
    && ptr in s.protect && s.Holds(ptr, c) && s.native[c].AesCtx?
    && out in s.protect && out >= fr.limit && out in s.objects && s.objects[out].RawVec? && |s.objects[out].data| == total
  }

  ghost predicate HasBytes(s: Session, v: nat, data: bytes)
    reads s
  {
    v in s.objects && s.objects[v] == RawVec(data)
  }

  /** The output vector, allocated before the loop. */
  method OpenOutput(s: Session, total: nat, ptr: nat, c: nat, x: Native, base: nat, ghost fr: Frame)
    returns (jumped: bool, out: nat)
    requires Opened(s, fr, ptr, c, x) && base == |fr.stack| && x.AesCtx?
    modifies s
    ensures s.created == old(s.created) && s.calls == old(s.calls) + 1
    ensures if jumped then LeftBehind(s, fr, {c}) else AliveAes(s, fr, ptr, c, out, total)
  {
    hide Owned, Same, Session.In, Quiet;
    ghost var before, kept := s.View(), s.Reach();
    jumped, out := s.AllocRaw(total, base, fr);
    if !jumped {
      SameHolds(before, s.View(), kept, ptr, c);
    }
  }

  /** What a native call left in the context and in the output, and then the interrupt check, which may
      longjmp. */
  method AesCheck(s: Session, next: Native, content: bytes, ptr: nat, c: nat, out: nat, base: nat, ghost fr: Frame)
    returns (jumped: bool)
    requires AliveAes(s, fr, ptr, c, out, |content|) && base == |fr.stack| && next.AesCtx?
    modifies s
    ensures s.created == old(s.created) && s.calls == old(s.calls) + 1
    ensures if jumped then LeftBehind(s, fr, {c}) else AliveAes(s, fr, ptr, c, out, |content|) && HasBytes(s, out, content) && c in s.native && s.native[c] == next
  {
    hide Owned, Same, Session.In, Quiet;
    s.SetNative(c, next, fr);
    s.FillRaw(out, content, fr);
    ghost var before := s.View();
    jumped := s.MayJump(base, fr);
    if !jumped {
      SameHolds(before, s.View(), s.Reach(), ptr, c);
      SameObject(before, s.View(), s.Reach(), out);
    }
  }

  lemma EmptyOutput(s: Session, fr: Frame, ptr: nat, c: nat, out: nat)
    requires AliveAes(s, fr, ptr, c, out, 0)
    ensures HasBytes(s, out, [])
  {
  }

  lemma WrittenOutput(start: bytes, at: nat, done: bytes, m: bytes)
    requires at + |done| <= |start| && m == Splice(start, at, done)
    ensures m[at..at + |done|] == done
  {
  }

  /** The chunk loop with its interrupt checks, through the AES handle: `mem` is what RAW(data) and
      RAW(out) point to, one after the other, and `passes(offset)` what the backend does there. */
  method RunAes(s: Session, h: Aes.Handle, encrypt: bool, mem: array<byte>, total: nat, passes: nat -> Aes.Pass,
                ptr: nat, c: nat, out: nat, base: nat, ghost fr: Frame, ghost iv: bytes, ghost src: bytes)
    returns (jumped: bool, st: Status)
    requires IsBlockCipher(h.cipher) && |iv| == BLOCK && |src| == total
    requires h.chain == iv && mem.Length == 2 * total && mem[..total] == src
    requires forall o: nat :: o < total ==> Aes.Possible(passes(o), Min(total - o, CHUNK))
    requires AliveAes(s, fr, ptr, c, out, total) && base == |fr.stack|
    modifies s, h`chain, mem
    ensures s.created == old(s.created)
    ensures jumped ==> LeftBehind(s, fr, {c})
    ensures !jumped ==> AliveAes(s, fr, ptr, c, out, total) && st == LoopStatus(total, CHUNK, true, passes, 0)
    ensures !jumped ==> s.calls == old(s.calls) + PassTurns(total, passes, 0)
    ensures !jumped && st == Ok ==>
              Whole(total) && HasBytes(s, out, Aes.OnePass(h.cipher, h.key, encrypt, iv, src))
  {
    hide AliveAes, LeftBehind, HasBytes, Whole, IsBlockCipher, Aes.OnePass, Aes.Ciphertext, Chain, Chained, Splice, PieceStatus,
         Aes.Possible;
    jumped, st := false, Ok;
    ghost var start, done: bytes := mem[..], [];
    assert src == start[0..0 + total];
    var offset := 0;
    SpliceNothing(start, total);
    ChainedStarts(h.cipher, h.key, encrypt, iv, src);
    while offset < total && st == Ok
      invariant 0 <= offset <= total && h.Valid() && s.created == old(s.created)
      invariant AliveAes(s, fr, ptr, c, out, total)
      invariant st == Ok ==> |done| == offset && mem[..] == Splice(start, total, done)
      invariant st == Ok ==> Chained(h.cipher, h.key, encrypt, iv, src, offset, h.chain, done)
      invariant st == Ok && offset > 0 ==> HasBytes(s, out, mem[total..2 * total])
      invariant LoopStatus(total, CHUNK, true, passes, 0) == if st == Ok then LoopStatus(total, CHUNK, true, passes, offset) else st
      invariant old(s.calls) + PassTurns(total, passes, 0) == s.calls + if st == Ok then PassTurns(total, passes, offset) else 0
      decreases total - offset
    {
      var n := Min(total - offset, CHUNK);
      ghost var chain := h.chain;
      st := Piece(h, encrypt, mem, 0, total, total, offset, n, true, passes(offset), start, src, done);
      OkPiece(n, true, passes(offset));
      if st == Ok {
        ChainedStep(h.cipher, h.key, encrypt, iv, src, offset, chain, done, n);
        done := done + Aes.OnePass(h.cipher, h.key, encrypt, chain, src[offset..offset + n]);
      }
      offset := offset + n;
      jumped := AesCheck(s, AesCtx(h.key, h.chain), mem[total..2 * total], ptr, c, out, base, fr);
      if jumped {
        return;
      }
    }
    if st == Ok {
      ChainedEnds(h.cipher, h.key, encrypt, iv, src, h.chain, done);
      WrittenOutput(start, total, done, mem[..]);
      if total == 0 {
        EmptyOutput(s, fr, ptr, c, out);
        assert done == [];
      }
    }
  }

  /** The eager release and the result. */
  method CloseAes(s: Session, st: Status, ptr: nat, c: nat, out: nat, total: nat, base: nat, ghost fr: Frame)
    returns (r: Outcome)
    requires AliveAes(s, fr, ptr, c, out, total) && base == |fr.stack| && Sound(fr)
    modifies s
    ensures Settled(s, fr, r) && NoMore(s, fr, {c}) && c !in s.native && s.created == old(s.created)
    ensures Same(fr.start, s.View(), fr.roots - fr.mine)
    ensures r == Jumped || (r == Returned(st, if st == Ok then Some(out) else None) && s.calls == old(s.calls) + 6)
    ensures r.Returned? && st == Ok ==> out in s.objects && out in old(s.objects) && s.objects[out] == old(s.objects)[out]
  {
    hide Owned, Same, Session.In, Quiet;
    s.ReleasePtr(ptr, fr);
    ghost var before, reach := s.View(), s.Reach();
    r := Finish(s, st, if st == Ok then Some(out) else None, base, fr);
    SameObject(before, s.View(), reach, out);
  }

  lemma NoAes(jumps: nat -> bool, b: Snapshot, a: Snapshot, cipher: Cipher, encrypt: bool, key: bytes, iv: bytes, data: bytes,
              created: Status, passes: nat -> Aes.Pass, r: Outcome)
    requires IsBlockCipher(cipher) && |iv| == BLOCK && EndedEarly(jumps, b, a, 2, created, r)
    ensures AesDid(jumps, b, a, cipher, encrypt, key, iv, data, created, passes, r)
  {
    hide Ended, Undisturbed, Quiet, LoopStatus, IsBlockCipher, PassTurns;
  }

  lemma AesEnds(s: Session, b: Snapshot, cipher: Cipher, encrypt: bool, key: bytes, iv: bytes, data: bytes,
                passes: nat -> Aes.Pass, c: nat, r: Outcome)
    requires IsBlockCipher(cipher) && |iv| == BLOCK
    requires Owned(b.heap) && s.created == b.created + [c] && c !in b.heap.native && Quiet(s.jumps, b.calls, b.calls + 2)
    requires var fr := Begin(b, {}); Settled(s, fr, r) && NoMore(s, fr, {c}) && (r.Returned? ==> c !in s.native)
    requires Same(b.heap, s.View(), b.roots - {})
    requires r.Returned? ==> r.st == LoopStatus(|data|, CHUNK, true, passes, 0) && (r.st == Ok ==> Whole(|data|))
    requires r.Returned? ==> s.calls == b.calls + 2 + 1 + PassTurns(|data|, passes, 0) + 6
    requires r.Returned? ==> Gives(s.Now(), r, if r.st == Ok then Aes.OnePass(cipher, key, encrypt, iv, data) else [])
    ensures AesDid(s.jumps, b, s.Now(), cipher, encrypt, key, iv, data, Ok, passes, r)
  {
    hide Settled, Ended, Gives, Quiet, Whole, IsBlockCipher, Aes.OnePass, PassTurns;
    EndsCall(s, b, {}, r);
  }

  /** What the vectors of the call are in memory. */
  method Lay(data: bytes) returns (mem: array<byte>)
    ensures fresh(mem) && mem.Length == 2 * |data| && mem[..|data|] == data
  {
    mem := new byte[2 * |data|](i => if 0 <= i < |data| then data[i] else 0);
  }

  lemma OpenedAes(s: Session, fr: Frame, ptr: nat, c: nat, x: Native)
    requires Opened(s, fr, ptr, c, x) && Sound(fr)
    ensures c !in fr.start.native
  {
  }

  /** The handle of the call, with its state set. */
  method NewHandle(cipher: Cipher, key: bytes, iv: bytes) returns (h: Aes.Handle)
    requires IsBlockCipher(cipher) && |iv| == BLOCK
    ensures fresh(h) && h.Valid() && h.cipher == cipher && h.key == key && h.chain == iv
  {
    h := new Aes.Handle(cipher, key);
    var st := h.SetState(Some(iv));
  }

  /** `zucrypt_aes_cbc`: `created` is what the native constructor returns. */
  method ZucryptAesCbc(s: Session, cipher: Cipher, encrypt: bool, key: bytes, iv: bytes, data: bytes, created: Status,
                       passes: nat -> Aes.Pass)
    returns (r: Outcome)
    requires s.Wf() && Owned(s.View()) && IsBlockCipher(cipher) && |iv| == BLOCK
    requires forall o: nat :: o < |data| ==> Aes.Possible(passes(o), Min(|data| - o, CHUNK))
    modifies s
    ensures AesDid(s.jumps, old(s.Now()), s.Now(), cipher, encrypt, key, iv, data, created, passes, r)
  {
    hide Owned, Opened, LeftBehind, AliveAes, Session.In, Session.Wf, Session.Calm, EndedEarly, AesDid, Settled, Sound, Quiet,
         Whole, IsBlockCipher, Aes.OnePass, LoopStatus, Aes.Possible, PassTurns;
    ghost var b := s.Now();
    ghost var fr := Begin(b, {});
    Begins(s, {});
    var base := |s.protect|;
    var early, ptr, c := Acquire(s, AesCtx(key, iv), created, base, 0, b);
    if early.Some? {
      NoAes(s.jumps, b, s.Now(), cipher, encrypt, key, iv, data, created, passes, early.value);
      return early.value;
    }
    OpenedAes(s, fr, ptr, c, AesCtx(key, iv));
    var h := NewHandle(cipher, key, iv);
    var mem := Lay(data);
    var jumped, out := OpenOutput(s, |data|, ptr, c, AesCtx(key, iv), base, fr);
    var st := Ok;
    if !jumped {
      jumped, st := RunAes(s, h, encrypt, mem, |data|, passes, ptr, c, out, base, fr, iv, data);
    }
    if jumped {
      JumpedSettles(s, fr, {c});
      r := Jumped;
    } else {
      r := CloseAes(s, st, ptr, c, out, |data|, base, fr);
    }
    AesEnds(s, b, cipher, encrypt, key, iv, data, passes, c, r);
  }

  // --- whole sessions ---------------------------------------------------

  /** R collects everything it cannot reach; no .Call is running. */
  method FullCollection(s: Session)
    requires s.Wf() && Owned(s.View()) && s.protect == []
    modifies s
    ensures CollectDid(old(s.Now()), s.Now())
  {
    hide Sane, Accounted, Same, Kept;
    ghost var b := s.Now();
    var reach := s.Reach();
    ReachIsThere(b.heap, reach, s.next);
    s.Collect(s.objects.Keys - reach);
    KeptIsSame(b.heap, s.View(), reach);
    SameSome(b.heap, s.View(), reach, s.roots - {});
    AllHeld(s.View(), s.roots);
  }

  /** When R's variables are all the objects there are, they hold all the contexts. */
  lemma AllHeld(h: Heap, roots: set<nat>)
    requires Owned(h) && h.objects.Keys <= roots
    ensures HeldBy(h, roots) == h.native.Keys
  {
  }

  /** What can happen in a session: any entry point, with any native and backend answers, dropping a
      variable, and garbage collection. */
  datatype Action =
    | DoDigest(mac: bool, f: Function, created: Status, data: bytes, ps: nat -> Status, last: Status)
    | DoStreamNew(mac: bool, f: Function, created: Status)
    | DoStreamUpdate(ptr: nat, data: bytes, last: Status)
    | DoStreamFinish(ptr: nat, last: Status)
    | DoAes(cipher: Cipher, encrypt: bool, key: bytes, iv: bytes, data: bytes, created: Status, passes: nat -> Aes.Pass)
    | DoPkey(created: Status)
    | DoForget(ptr: nat)
    | DoCollect

  /** What R checks before `zucrypt_aes_cbc`, and what a block cipher and a pass are. */
  ghost predicate Proper(a: Action) {
    a.DoAes? ==>
      && IsBlockCipher(a.cipher) && |a.iv| == BLOCK
      && forall o: nat :: o < |a.data| ==> Aes.Possible(a.passes(o), Min(|a.data| - o, CHUNK))
  }

  /** What an action does: that of its entry point. Anything but a stream is refused with an R error
      before the stream functions touch it. */
  ghost predicate ActDid(jumps: nat -> bool, b: Snapshot, a: Snapshot, act: Action, r: Outcome)
    requires Proper(act)
  {
    match act
    case DoDigest(mac, f, created, data, ps, last) => DigestDid(jumps, b, a, f, created, data, ps, last, r)
    case DoStreamNew(mac, f, created) => ConstructorDid(jumps, b, a, DigestCtx(mac, f, FRESH), 3, created, r)
    case DoStreamUpdate(ptr, data, ps) =>
      if HasStream(b, ptr) then UpdateDid(jumps, b, a, ptr, data, ps, r) else a == b && r == Jumped
    case DoStreamFinish(ptr, last) =>
      if HasStream(b, ptr) then FinishDid(jumps, b, a, ptr, last, r) else a == b && r == Jumped
    case DoAes(cipher, encrypt, key, iv, data, created, passes) =>
      AesDid(jumps, b, a, cipher, encrypt, key, iv, data, created, passes, r)
    case DoPkey(created) => ConstructorDid(jumps, b, a, PkeyCtx, 2, created, r)
    case DoForget(ptr) => a == b.(roots := b.roots - {ptr}) && r == Returned(Ok, None)
    case DoCollect => CollectDid(b, a) && r == Returned(Ok, None)
  }

  /** However an action ends, every unfreed context has exactly one owner after it. */
  lemma ActKeepsWell(jumps: nat -> bool, b: Snapshot, a: Snapshot, act: Action, r: Outcome)
    requires Proper(act) && Well(b) && ActDid(jumps, b, a, act, r)
    ensures Well(a) && a.protect == b.protect
  {
    hide Accounted, Owned, IsBlockCipher, Whole, DigestStatus, LoopStatus;
  }

  /** The actions that leave nothing behind: a digest, a cipher, a stream update, and a constructor that
      failed or was left by a longjmp. */
  predicate Transient(act: Action, r: Outcome) {
    || act.DoDigest? || act.DoAes? || act.DoStreamUpdate?
    || ((act.DoStreamNew? || act.DoPkey?) && (r == Jumped || r.st != Ok))
  }

  lemma TransientExactly(act: Action, st: Status, value: Option<nat>)
    ensures act.DoDigest? || act.DoAes? || act.DoStreamUpdate? ==> Transient(act, Returned(st, value)) && Transient(act, Jumped)
    ensures act.DoStreamNew? || act.DoPkey? ==> Transient(act, Jumped) && (Transient(act, Returned(st, value)) <==> st != Ok)
  {
  }

  lemma VectorsHoldNothing(h: Heap, roots: set<nat>, v: nat)
    requires Owned(h) && v in h.objects && h.objects[v].RawVec?
    ensures HeldBy(h, roots + {v}) == HeldBy(h, roots)
  {
  }

  /** R's variables are the same objects, whatever became of what they hold. */
  ghost predicate SameObjects(b: Snapshot, a: Snapshot) {
    forall p :: p in b.roots ==> p in b.heap.objects && p in a.heap.objects && a.heap.objects[p] == b.heap.objects[p]
  }

  lemma UndisturbedObjects(b: Snapshot, a: Snapshot, mine: set<nat>)
    requires Undisturbed(b, a, mine)
    requires forall p :: p in mine ==> p in b.heap.objects && p in a.heap.objects && a.heap.objects[p] == b.heap.objects[p]
    ensures SameObjects(b, a)
  {
    forall p | p in b.roots && p !in mine ensures p in b.heap.objects && p in a.heap.objects && a.heap.objects[p] == b.heap.objects[p] {
      assert p in b.roots - mine;
    }
  }

  lemma TransientValue(jumps: nat -> bool, b: Snapshot, m: Snapshot, act: Action, r: Outcome)
    requires Proper(act) && ActDid(jumps, b, m, act, r) && Transient(act, r) && Well(b)
    ensures Well(m) && m.roots == b.roots + ValueOf(r) && SameObjects(b, m)
    ensures r.Returned? && r.value.Some? ==> r.value.value in m.heap.objects && m.heap.objects[r.value.value].RawVec?
  {
    hide Accounted, Owned, IsBlockCipher, Whole, DigestStatus, LoopStatus, Step, Quiet, Aes.OnePass, Undisturbed, SameObjects;
    assert b.roots + {} == b.roots;
    if act.DoStreamUpdate? {
      if HasStream(b, act.ptr) {
        UndisturbedObjects(b, m, {act.ptr});
      } else {
        Unchanged(b);
      }
    } else {
      UndisturbedObjects(b, m, {});
    }
  }

  lemma Unchanged(b: Snapshot)
    requires Well(b)
    ensures SameObjects(b, b)
  {
  }

  /** After such an action and a collection, the live contexts are those R's variables held before it,
      wherever R jumped. */
  lemma LiveAsBefore(jumps: nat -> bool, b: Snapshot, m: Snapshot, a: Snapshot, act: Action, r: Outcome)
    requires Proper(act) && Well(b) && ActDid(jumps, b, m, act, r) && Transient(act, r) && CollectDid(m, a)
    ensures a.heap.native.Keys == HeldBy(b.heap, b.roots)
  {
    hide ActDid, Proper, Transient, Owned, Sane, Accounted, HeldBy, Undisturbed;
    TransientValue(jumps, b, m, act, r);
    SameHeld(b.heap, m.heap, b.roots);
    UndisturbedObjects(m, a, {});
    SameHeld(m.heap, a.heap, m.roots);
    if r.Returned? && r.value.Some? {
      VectorsHoldNothing(m.heap, b.roots, r.value.value);
    } else {
      assert m.roots == b.roots;
    }
  }

  /** One action. */
  method Act(s: Session, act: Action) returns (r: Outcome)
    requires Well(s.Now()) && s.protect == [] && Proper(act)
    modifies s
    ensures Well(s.Now()) && s.protect == []
    ensures ActDid(s.jumps, old(s.Now()), s.Now(), act, r)
  {
    hide Owned, Sane, Accounted, DigestDid, ConstructorDid, UpdateDid, FinishDid, AesDid, CollectDid, IsBlockCipher;
    ghost var b := s.Now();
    r := Returned(Ok, None);
    match act {
      case DoDigest(mac, f, created, data, ps, last) => r := ZucryptDigest(s, mac, f, created, data, ps, last);
      case DoStreamNew(mac, f, created) => r := StreamNew(s, mac, f, created);
      case DoStreamUpdate(ptr, data, ps) =>
        r := Jumped;
        if IsStream(s.native, s.objects, s.roots, ptr) {
          r := StreamUpdate(s, ptr, data, ps);
        }
      case DoStreamFinish(ptr, last) =>
        r := Jumped;
        if IsStream(s.native, s.objects, s.roots, ptr) {
          r := StreamFinish(s, ptr, last);
        }
      case DoAes(cipher, encrypt, key, iv, data, created, passes) =>
        r := ZucryptAesCbc(s, cipher, encrypt, key, iv, data, created, passes);
      case DoPkey(created) => r := ZucryptPkeyNew(s, created);
      case DoForget(ptr) => s.Forget(ptr);
      case DoCollect => FullCollection(s);
    }
    ActKeepsWell(s.jumps, b, s.Now(), act, r);
  }

  /** A session as it went: each action did what its entry point promises, from the state the last one
      left, and all was well between any two. */
  ghost predicate Went(jumps: nat -> bool, actions: seq<Action>, outcomes: seq<Outcome>, trace: seq<Snapshot>)
    requires forall i :: 0 <= i < |actions| ==> Proper(actions[i])
  {
    && |outcomes| == |actions| && |trace| == |actions| + 1 && trace[0] == EMPTY
    && (forall i :: 0 <= i < |trace| ==> Well(trace[i]))
    && (forall i :: 0 <= i < |actions| ==> ActDid(jumps, trace[i], trace[i + 1], actions[i], outcomes[i]))
  }

  lemma WentOn(jumps: nat -> bool, actions: seq<Action>, outcomes: seq<Outcome>, trace: seq<Snapshot>, act: Action, r: Outcome,
               a: Snapshot)
    requires Proper(act) && (forall i :: 0 <= i < |actions| ==> Proper(actions[i])) && Went(jumps, actions, outcomes, trace)
    requires Well(a) && ActDid(jumps, trace[|actions|], a, act, r)
    ensures Went(jumps, actions + [act], outcomes + [r], trace + [a])
  {
    hide Well, ActDid, Proper;
  }

  /** R drops all its variables, and a collection runs. */
  method CloseSession(s: Session)
    requires Well(s.Now()) && s.protect == []
    modifies s
    ensures s.native == map[] && s.created == old(s.created)
    ensures s.freed == multiset(s.created) && forall c :: c in s.created ==> s.freed[c] == 1
    ensures L.Possible(s.events) && L.Run(s.events) == L.State(1, true, {}, map[], 0)
  {
    hide Owned, Sane, L.Run, L.Possible;
    s.ForgetAll();
    FullCollection(s);
    NothingHeld(s.View());
    assert s.native.Keys == {};
    assert HandlesOf(map[]) == map[] && L.KeysOf(map[]) == {};
  }

  /** A whole session, wherever R jumps: every action did what its entry point promises, and once the
      variables are dropped and a collection has run, every context that was ever made has been freed
      exactly once, and the adapter is as it was when it was loaded: no key in its store, no live
      handle, and its one reference. */
  method RunSession(jumps: nat -> bool, actions: seq<Action>)
    returns (s: Session, outcomes: seq<Outcome>, ghost trace: seq<Snapshot>)
    requires forall i :: 0 <= i < |actions| ==> Proper(actions[i])
    ensures fresh(s) && Went(jumps, actions, outcomes, trace) && s.created == trace[|actions|].created
    ensures s.native == map[] && s.freed == multiset(s.created) && forall c :: c in s.created ==> s.freed[c] == 1
    ensures L.Possible(s.events) && L.Run(s.events) == L.State(1, true, {}, map[], 0)
  {
    hide ActDid, Proper, Went, Well, Session.Wf, Owned;
    s := new Session(jumps);
    outcomes, trace := [], [s.Now()];
    assert Went(jumps, [], [], trace) && Well(s.Now()) by {
      WentNowhere(jumps);
    }
    assert actions[..0] == [];
    for i := 0 to |actions|
      invariant fresh(s) && s.jumps == jumps && Well(s.Now()) && s.protect == []
      invariant |trace| == i + 1 && trace[i] == s.Now() && Went(jumps, actions[..i], outcomes, trace)
    {
      var r := Act(s, actions[i]);
      WentOn(jumps, actions[..i], outcomes, trace, actions[i], r, s.Now());
      assert actions[..i + 1] == actions[..i] + [actions[i]];
      outcomes, trace := outcomes + [r], trace + [s.Now()];
    }
    assert actions[..|actions|] == actions;
    CloseSession(s);
  }

  /** Between any two actions what the adapter has seen is a possible run; its store, live counter and
      handles agree, the handles are the contexts of the session, and the keys in the store those of its
      MAC and AES contexts. */
  lemma AdapterFollows(a: Snapshot)
    requires Well(a)
    ensures L.Possible(a.events) && L.Consistent(L.Run(a.events))
    ensures L.Run(a.events).handles.Keys == a.heap.native.Keys && L.Run(a.events).live == |a.heap.native|
    ensures forall c :: c in L.Run(a.events).store <==>
              c in a.heap.native && (a.heap.native[c].AesCtx? || (a.heap.native[c].DigestCtx? && a.heap.native[c].mac))
  {
    hide L.Possible, L.Run, L.Consistent, Owned, Sane;
    KeysAreContexts(a.heap.native);
    AdapterAgrees(a.heap.native);
  }

  lemma WentNowhere(jumps: nat -> bool)
    ensures Went(jumps, [], [], [EMPTY]) && Well(EMPTY)
  {
  }

  lemma NothingHeld(h: Heap)
    requires Owned(h)
    ensures HeldBy(h, {}) == {}
  {
  }
}
