/** Whole runs of the adapter: any operations, in any order, with any answers from the backend. */
module LibraryRuns {
  import opened Bytes
  import opened Options
  import opened Statuses
  import opened Psa
  import opened Buffers
  import opened Digest
  import opened KeyWriter
  import Aead
  import L = Lifetimes
  import opened Library
  import opened PkeyOps

  /** One operation with everything the caller, the allocator and the backend contribute to it. `buffer`
      is what the caller's output holds before, if it is not NULL. */
  datatype Operation =
    | OpInit(start: PsaStatus)
    | OpShutdown
    | OpHashNew(available: bool, calloc: bool, setup: Answer, addr: nat)
    | OpHmacNew(nullKey: bool, available: bool, calloc: bool, reduce: bool, hashed: Answer, imported: Answer,
                setup: Answer, addr: nat, id: nat)
    | OpAesNew(nullKey: bool, keyLen: nat, calloc: bool, imported: Answer, addr: nat, id: nat)
    | OpFree(handle: Option<nat>)
    | OpHmacCompute(nullOut: bool, input: Input, available: bool, size: nat, outSize: nat, secret: Input, reduce: bool,
                    hashed: Answer, imported: Answer, work: Answer, id: nat)
    | OpAead(encrypt: bool, known: bool, secret: Input, nonce: Input, ad: Input, inp: Pointer, len: nat, outp: Pointer,
             tag: Pointer, tagLen: nat, imported: Answer, work: Answer, miscounts: bool, id: nat)
    | OpMakePkey(call: MakeCall, imported: Answer, exported: Exported, addr: nat, id: nat)
    | OpParse(nullIn: bool, inLen: nat, read: Status, readStarved: bool, imported: Answer, exported: Exported,
              wantPrivate: bool, isPrivate: bool, addr: nat, id: nat)
    | OpUse(use: Use, key: Option<Key>, input: Input, scheme: Scheme, hash: HashArg, buffer: Option<bytes>, nullLen: bool,
            imported: Answer, outcome: Work, id: nat)
    | OpExport(key: Option<Key>, publicOnly: bool, buffer: Option<bytes>, nullLen: bool, malloc: bool, imported: Answer,
               exported: Exported, public: bytes, addr: nat, id: nat)
    | OpAgree(key: Option<Key>, peer: Option<Key>, buffer: Option<bytes>, nullLen: bool, ecdh: bool, malloc: bool,
              published: Answer, exported: Exported, imported: Answer, outcome: Work, addr: nat, id: nat)
    | OpWrite(key: Option<Key>, format: Format, publicOnly: bool, encoding: Encoding, pem: Pem, buffer: Option<bytes>,
              nullLen: bool, addr: nat, id: nat)

  function Room(buffer: Option<bytes>): Option<nat> {
    if buffer.None? then None else Some(|buffer.value|)
  }

  /** The backend writes inside the buffer. */
  predicate Fits(buffer: Option<bytes>, left: bytes, len: nat) {
    buffer.Some? ==> |left| == |buffer.value| && len <= |left|
  }

  /** Addresses and key ids that are handed out are unused, only live handles are freed, and the backend
      writes inside the buffers it is given. */
  predicate Sensible(s: L.State, op: Operation) {
    match op
    case OpHashNew(_, _, _, addr) => addr !in s.handles
    case OpHmacNew(_, _, _, _, _, _, _, addr, id) => addr !in s.handles && id !in s.store
    case OpAesNew(_, _, _, _, addr, id) => addr !in s.handles && id !in s.store
    case OpFree(h) => h.Some? ==> h.value in s.handles
    case OpHmacCompute(_, _, _, _, _, _, _, _, _, _, id) => id !in s.store
    case OpAead(_, _, _, _, _, _, _, _, _, _, _, _, _, id) => id !in s.store
    case OpMakePkey(_, _, _, addr, id) => addr !in s.handles && id !in s.store
    case OpParse(_, _, _, _, _, _, _, _, addr, id) => addr !in s.handles && id !in s.store
    case OpUse(_, _, _, _, _, buffer, _, _, work, id) => id !in s.store && Fits(buffer, work.left, work.len)
    case OpExport(_, _, _, _, _, _, _, _, addr, id) => addr !in s.handles && id !in s.store
    case OpAgree(_, _, buffer, _, _, _, _, _, _, work, addr, id) =>
      addr !in s.handles && id !in s.store && Fits(buffer, work.left, work.len)
    case OpWrite(_, _, _, _, pem, buffer, _, addr, id) => addr !in s.handles && id !in s.store && Fits(buffer, pem.left, 0)
    case _ => true
  }

  /** Which operations that fill a buffer can happen: any, with an unused id and, where a second handle may be made,
      an unused address, and a backend that writes as many bytes as there are and counts no more. */
  lemma SensibleExactly(s: L.State, op: Operation)
    ensures op.OpUse? ==>
              (Sensible(s, op) <==>
                 (op.id !in s.store && (op.buffer.Some? ==> |op.outcome.left| == |op.buffer.value| && op.outcome.len <= |op.buffer.value|)))
    ensures op.OpExport? ==> (Sensible(s, op) <==> op.addr !in s.handles && op.id !in s.store)
    ensures op.OpAgree? ==>
              (Sensible(s, op) <==>
                 (op.addr !in s.handles && op.id !in s.store &&
                  (op.buffer.Some? ==> |op.outcome.left| == |op.buffer.value| && op.outcome.len <= |op.buffer.value|)))
    ensures op.OpWrite? ==>
              (Sensible(s, op) <==> op.addr !in s.handles && op.id !in s.store && (op.buffer.Some? ==> |op.pem.left| == |op.buffer.value|))
    ensures op.OpInit? || op.OpShutdown? ==> Sensible(s, op)
    ensures op.OpHashNew? ==> (Sensible(s, op) <==> op.addr !in s.handles)
    ensures op.OpHmacNew? || op.OpAesNew? || op.OpMakePkey? || op.OpParse? ==>
              (Sensible(s, op) <==> op.addr !in s.handles && op.id !in s.store)
    ensures op.OpHmacCompute? || op.OpAead? ==> (Sensible(s, op) <==> op.id !in s.store)
    ensures op.OpFree? ==> (Sensible(s, op) <==> op.handle.None? || op.handle.value in s.handles)
  {
  }

  /** `check_digest_args` and the key check of `zuc_hmac_compute`, in order. */
  function HmacCheck(ready: bool, nullOut: bool, input: Input, available: bool, size: nat, outSize: nat, secret: Input): Status {
    if !ready then NotReady
    else if nullOut || (input.NullInput? && input.len != 0) then InvalidArgument
    else if !available then Unsupported
    else if outSize < size then BadLength
    else if secret.NullInput? && secret.len != 0 then InvalidArgument
    else Ok
  }

  /** `aead_run`: a tag that does not match has a status of its own, and a wrong byte count is an error. */
  function AeadStatus(imported: Answer, work: Answer, miscounts: bool): Status {
    if imported.ps != Success then FromPsa(imported.ps)
    else if work.ps == InvalidSignature then Auth
    else if work.ps != Success then FromPsa(work.ps)
    else if miscounts then Internal
    else Ok
  }

  /** Which call of `zuc_hmac_compute` is refused with which status, and what a pass of authenticated encryption
      reports: a mismatch only when the backend found one. */
  lemma OneShotsExactly(ready: bool, nullOut: bool, input: Input, available: bool, size: nat, outSize: nat, secret: Input,
                        imported: Answer, work: Answer, miscounts: bool)
    ensures var st := HmacCheck(ready, nullOut, input, available, size, outSize, secret);
            var given := !nullOut && (input.Given? || input.len == 0);
            && (st == NotReady <==> !ready) && (ready && !given ==> st == InvalidArgument)
            && (st == Unsupported <==> ready && given && !available)
            && (st == BadLength <==> ready && given && available && outSize < size)
            && (st == Ok <==> ready && given && available && outSize >= size && (secret.Given? || secret.len == 0))
            && st in {Ok, NotReady, InvalidArgument, Unsupported, BadLength}
    ensures var st := AeadStatus(imported, work, miscounts);
            && (st == Ok <==> imported.ps == Success && work.ps == Success && !miscounts)
            && (st == Auth <==> imported.ps == Success && work.ps == InvalidSignature)
            && (imported.ps != Success ==> st == FromPsa(imported.ps))
            && (imported.ps == Success && work.ps == Success && miscounts ==> st == Internal)
            && (imported.ps == Success && work.ps != Success && work.ps != InvalidSignature ==> st == FromPsa(work.ps))
  {
  }

  /** What an operation returns in a given state. */
  function StatusOf(s: L.State, op: Operation): Status {
    var ready := s.refcount > 0;
    match op
    case OpInit(start) =>
      if !ready then FromPsa(start) else if s.refcount == L.MAX_COUNT then Internal else Ok
    case OpShutdown => if ready then Ok else InvalidArgument
    case OpHashNew(available, calloc, setup, _) => HashNewStatus(ready, available, calloc, setup)
    case OpHmacNew(nullKey, available, calloc, reduce, hashed, imported, setup, _, _) =>
      HmacNewStatus(ready, nullKey, available, calloc, reduce, hashed, imported, setup)
    case OpAesNew(nullKey, keyLen, calloc, imported, _, _) => AesNewStatus(ready, nullKey, keyLen, calloc, imported)
    case OpFree(_) => Ok
    case OpHmacCompute(nullOut, input, available, size, outSize, secret, reduce, hashed, imported, work, _) =>
      var check := HmacCheck(ready, nullOut, input, available, size, outSize, secret);
      if check != Ok then check
      else if reduce && hashed.ps != Success then FromPsa(hashed.ps)
      else OneShotStatus(imported, work)
    case OpAead(encrypt, known, secret, nonce, ad, inp, len, outp, tag, tagLen, imported, work, miscounts, _) =>
      var check := Aead.CheckAeadArgs(encrypt, ready, known, secret, nonce, ad, inp, len, outp, tag, tagLen);
      if check != Ok then check else AeadStatus(imported, work, miscounts)
    case OpMakePkey(call, imported, exported, _, _) =>
      var check := MakeCheck(ready, call);
      if check != Ok then check
      else MemoryOr(MadeStatus(MakerOf(call), imported, exported), MadeStarved(imported, exported))
    case OpParse(nullIn, inLen, read, readStarved, imported, exported, wantPrivate, isPrivate, _, _) =>
      if !ready then NotReady
      else if nullIn || inLen == 0 then InvalidArgument
      else if read != Ok then MemoryOr(read, readStarved)
      else MemoryOr(ParseStatus(imported, exported, wantPrivate, isPrivate), readStarved || MadeStarved(imported, exported))
    case OpUse(use, key, input, scheme, hash, buffer, nullLen, imported, work, _) =>
      UseReport(use, ready, key, input, scheme, hash, Room(buffer), nullLen, imported, work)
    case OpExport(key, publicOnly, buffer, nullLen, malloc, imported, exported, public, _, _) =>
      ExportReport(ready, key, publicOnly, Room(buffer), nullLen, malloc, imported, exported, public)
    case OpAgree(key, peer, buffer, nullLen, ecdh, malloc, published, exported, imported, work, _, _) =>
      AgreeReport(ready, key, peer, Room(buffer), nullLen, ecdh, malloc, published, exported, imported, work)
    case OpWrite(key, format, publicOnly, encoding, pem, buffer, nullLen, _, _) =>
      WriteReport(ready, key, format, publicOnly, Room(buffer), nullLen, encoding, pem)
  }

  /** Operation by operation: init is refused at the ceiling and reports a backend that does not start; shutdown is
      refused when there is nothing to shut down; a check that fails is what the call returns, before anything else;
      and a failure after a failed allocation of the backend is a lack of memory. */
  lemma StatusExactly(s: L.State, op: Operation)
    ensures op.OpInit? ==>
              StatusOf(s, op) == if s.refcount == 0 then FromPsa(op.start) else if s.refcount == 4294967295 then Internal else Ok
    ensures op.OpShutdown? ==> (StatusOf(s, op) == Ok <==> s.refcount > 0) && (s.refcount == 0 ==> StatusOf(s, op) == InvalidArgument)
    ensures op.OpFree? ==> StatusOf(s, op) == Ok
    ensures op.OpMakePkey? ==>
              var check, made := MakeCheck(s.refcount >= 1, op.call), MadeStatus(MakerOf(op.call), op.imported, op.exported);
              && (check != Ok ==> StatusOf(s, op) == check)
              && (check == Ok ==> StatusOf(s, op) == if made != Ok && MadeStarved(op.imported, op.exported) then Memory else made)
    ensures op.OpParse? ==>
              var parsed := ParseStatus(op.imported, op.exported, op.wantPrivate, op.isPrivate);
              && (s.refcount == 0 ==> StatusOf(s, op) == NotReady)
              && (s.refcount > 0 && (op.nullIn || op.inLen == 0) ==> StatusOf(s, op) == InvalidArgument)
              && (s.refcount > 0 && !op.nullIn && op.inLen > 0 && op.read != Ok ==>
                    StatusOf(s, op) == if op.readStarved then Memory else op.read)
              && (s.refcount > 0 && !op.nullIn && op.inLen > 0 && op.read == Ok ==>
                    StatusOf(s, op) == if parsed != Ok && (op.readStarved || MadeStarved(op.imported, op.exported)) then Memory else parsed)
    ensures op.OpHmacCompute? ==>
              var check := HmacCheck(s.refcount >= 1, op.nullOut, op.input, op.available, op.size, op.outSize, op.secret);
              && (check != Ok ==> StatusOf(s, op) == check)
              && (check == Ok && op.reduce && op.hashed.ps != Success ==> StatusOf(s, op) == FromPsa(op.hashed.ps))
              && (check == Ok && (!op.reduce || op.hashed.ps == Success) ==> StatusOf(s, op) == OneShotStatus(op.imported, op.work))
    ensures op.OpAead? ==>
              var check := Aead.CheckAeadArgs(op.encrypt, s.refcount >= 1, op.known, op.secret, op.nonce, op.ad, op.inp, op.len, op.outp,
                                              op.tag, op.tagLen);
              StatusOf(s, op) == if check != Ok then check else AeadStatus(op.imported, op.work, op.miscounts)
  {
    hide MakeCheck, MadeStatus, MadeStarved, ParseStatus, HmacCheck, Aead.CheckAeadArgs, AeadStatus, OneShotStatus, FromPsa;
  }

  /** The event an operation amounts to: a constructor hands out a handle exactly when it returns OK, and
      no operation on keys leaves anything behind. */
  function EventOf(s: L.State, op: Operation): L.Event {
    match op
    case OpInit(start) => L.Init(start == Success)
    case OpShutdown => L.Shutdown
    case OpHashNew(_, _, _, addr) => Handed(StatusOf(s, op), addr, L.HashHandle)
    case OpHmacNew(_, _, _, _, _, _, _, addr, id) => Handed(StatusOf(s, op), addr, L.HmacHandle(id))
    case OpAesNew(_, _, _, _, addr, id) => Handed(StatusOf(s, op), addr, L.AesHandle(id))
    case OpMakePkey(_, _, _, addr, _) => Handed(StatusOf(s, op), addr, L.PkeyHandle)
    case OpParse(_, _, _, _, _, _, _, _, addr, _) => Handed(StatusOf(s, op), addr, L.PkeyHandle)
    case OpFree(h) => if h.Some? then L.Free(h.value) else L.Nothing
    case _ => L.Nothing
  }

  function Handed(st: Status, addr: nat, h: L.Handle): L.Event {
    if st == Ok then L.New(addr, h) else L.Nothing
  }

  method Buffer(content: Option<bytes>) returns (out: array?<byte>)
    ensures out == null <==> content.None?
    ensures out != null ==> fresh(out) && out[..] == content.value
  {
    if content.None? {
      return null;
    }
    var w := content.value;
    out := new byte[|w|](i requires 0 <= i < |w| => w[i]);
  }

  /** The operations that fill a caller's buffer. */
  method PerformOnKey(lib: Adapter, op: Operation) returns (st: Status)
    requires Sensible(lib.Now(), op) && (op.OpUse? || op.OpExport? || op.OpAgree? || op.OpWrite?)
    modifies lib
    ensures lib.Now() == old(lib.Now()) && st == StatusOf(old(lib.Now()), op)
  {
    hide UseReport, ExportReport, AgreeReport, WriteReport, EncodedKey;
    var out := Buffer(op.buffer);
    var len;
    match op {
      case OpUse(use, key, input, scheme, hash, buffer, nullLen, imported, work, id) =>
        st, len := UseKey(lib, use, key, input, scheme, hash, out, nullLen, imported, work, id);
      case OpExport(key, publicOnly, buffer, nullLen, malloc, imported, exported, public, addr, id) =>
        st, len := Export(lib, key, publicOnly, out, nullLen, malloc, imported, exported, public, addr, id);
      case OpAgree(key, peer, buffer, nullLen, ecdh, malloc, published, exported, imported, work, addr, id) =>
        st, len := Agree(lib, key, peer, out, nullLen, ecdh, malloc, published, exported, imported, work, addr, id);
      case OpWrite(key, format, publicOnly, encoding, pem, buffer, nullLen, addr, id) =>
        st, len := Write(lib, key, format, publicOnly, encoding, pem, out, nullLen, addr, id);
    }
  }

  /** `zuc_hmac_compute`, `zuc_aead_encrypt` and `zuc_aead_decrypt`: the argument checks, and then a key that
      does not outlive the call. */
  method PerformOneShot(lib: Adapter, op: Operation) returns (st: Status)
    requires Sensible(lib.Now(), op) && (op.OpHmacCompute? || op.OpAead?)
    modifies lib
    ensures lib.Now() == old(lib.Now()) && st == StatusOf(old(lib.Now()), op)
    ensures op.OpHmacCompute? ==>
              var called := HmacCheck(lib.Ready(), op.nullOut, op.input, op.available, op.size, op.outSize, op.secret) == Ok;
              var reduced := called && (!op.reduce || op.hashed.ps == Success);
              lib.allocFailed == (old(lib.allocFailed) || (called && op.reduce && op.hashed.starved)
                                  || (reduced && (op.imported.starved || (op.imported.ps == Success && op.work.starved))))
  {
    hide Aead.CheckAeadArgs, HmacCheck;
    match op {
      case OpHmacCompute(nullOut, input, available, size, outSize, secret, reduce, hashed, imported, work, id) =>
        st := HmacCheck(lib.Ready(), nullOut, input, available, size, outSize, secret);
        if st != Ok {
          return;
        }
        if reduce {
          lib.Step(hashed);
          if hashed.ps != Success {
            return FromPsa(hashed.ps);
          }
        }
        st := lib.OneShot(imported, work, id);
      case OpAead(encrypt, known, secret, nonce, ad, inp, len, outp, tag, tagLen, imported, work, miscounts, id) =>
        st := Aead.CheckAeadArgs(encrypt, lib.Ready(), known, secret, nonce, ad, inp, len, outp, tag, tagLen);
        if st != Ok {
          return;
        }
        st := lib.OneShot(imported, work, id);
        if imported.ps == Success && work.ps == InvalidSignature {
          return Auth;
        }
        if st == Ok && miscounts {
          return Internal;
        }
    }
  }

  /** `zuc_pkey_generate`, `zuc_pkey_import`, `zuc_pkey_public` and `zuc_pkey_parse`, under the
      allocation watch. `read` is how parsing the input ended. */
  method PerformMake(lib: Adapter, op: Operation) returns (st: Status)
    requires Sensible(lib.Now(), op) && (op.OpMakePkey? || op.OpParse?)
    modifies lib
    ensures lib.Now() == L.Next(old(lib.Now()), EventOf(old(lib.Now()), op)) && st == StatusOf(old(lib.Now()), op)
  {
    hide MadeStatus, MadeStarved, ParseStatus;
    lib.AllocWatch();
    match op {
      case OpMakePkey(call, imported, exported, addr, id) =>
        st := MakeCheck(lib.Ready(), call);
        if st != Ok {
          return;
        }
        st := lib.MakePkey(MakerOf(call), imported, exported, addr, id);
      case OpParse(nullIn, inLen, read, readStarved, imported, exported, wantPrivate, isPrivate, addr, id) =>
        if !lib.Ready() {
          return NotReady;
        }
        if nullIn || inLen == 0 {
          return InvalidArgument;
        }
        lib.Step(Answer(Success, readStarved));
        if read != Ok {
          return MemoryOr(read, lib.allocFailed);
        }
        st := lib.ParseTail(imported, exported, wantPrivate, isPrivate, addr, id);
    }
    st := MemoryOr(st, lib.allocFailed);
  }

  /** One operation: its status, and the event that is all it does to the count, the store, the counter
      and the handles. */
  method Perform(lib: Adapter, op: Operation) returns (st: Status)
    requires Sensible(lib.Now(), op) && lib.refcount <= L.MAX_COUNT
    modifies lib
    ensures st == StatusOf(old(lib.Now()), op)
    ensures lib.Now() == L.Next(old(lib.Now()), EventOf(old(lib.Now()), op))
  {
    hide UseReport, ExportReport, AgreeReport, WriteReport, MadeStatus, MadeStarved, ParseStatus;
    match op {
      case OpInit(start) => st := lib.Init(start);
      case OpShutdown => st := lib.Shutdown();
      case OpHashNew(available, calloc, setup, addr) => st := lib.HashNew(available, calloc, setup, addr);
      case OpHmacNew(nullKey, available, calloc, reduce, hashed, imported, setup, addr, id) =>
        st := lib.HmacNew(nullKey, available, calloc, reduce, hashed, imported, setup, addr, id);
      case OpAesNew(nullKey, keyLen, calloc, imported, addr, id) =>
        st := lib.AesNew(nullKey, keyLen, calloc, imported, addr, id);
      case OpFree(h) =>
        lib.Free(h);
        st := Ok;
      case OpHmacCompute(_, _, _, _, _, _, _, _, _, _, _) => st := PerformOneShot(lib, op);
      case OpAead(_, _, _, _, _, _, _, _, _, _, _, _, _, _) => st := PerformOneShot(lib, op);
      case OpMakePkey(_, _, _, _, _) => st := PerformMake(lib, op);
      case OpParse(_, _, _, _, _, _, _, _, _, _) => st := PerformMake(lib, op);
      case _ => st := PerformOnKey(lib, op);
    }
  }

  // --- whole runs -------------------------------------------------------

  /** The events of a run from the adapter's start, one for each operation; an operation that is not
      sensible at its turn does not happen. */
  function EventsOf(ops: seq<Operation>): (events: seq<L.Event>)
    ensures |events| == |ops|
  {
    if ops == [] then []
    else
      var before, op := EventsOf(ops[..|ops| - 1]), ops[|ops| - 1];
      var s := L.Run(before);
      before + [if Sensible(s, op) then EventOf(s, op) else L.Nothing]
  }

  /** The state before each operation's turn. */
  function StateBefore(ops: seq<Operation>, k: nat): L.State
    requires k <= |ops|
  {
    L.Run(EventsOf(ops[..k]))
  }

  /** An operation that is sensible amounts to an event that is possible. */
  lemma SensibleIsEnabled(s: L.State, op: Operation)
    requires Sensible(s, op)
    ensures L.Enabled(s, EventOf(s, op))
  {
    hide UseReport, ExportReport, AgreeReport, WriteReport, MadeStatus, MadeStarved, ParseStatus;
  }

  lemma EventsOfMore(ops: seq<Operation>, op: Operation)
    ensures var s := L.Run(EventsOf(ops));
            EventsOf(ops + [op]) == EventsOf(ops) + [if Sensible(s, op) then EventOf(s, op) else L.Nothing]
  {
    hide StatusOf, EventOf, Sensible, L.Run;
    assert (ops + [op])[..|ops|] == ops;
  }

  /** Every run of operations is a possible run of events. */
  lemma {:induction false} EventsArePossible(ops: seq<Operation>)
    ensures L.Possible(EventsOf(ops))
  {
    if ops != [] {
      hide StatusOf, EventOf, Sensible, L.Possible, L.Enabled, L.Next, EventsOf;
      var most, op := ops[..|ops| - 1], ops[|ops| - 1];
      assert ops == most + [op];
      EventsArePossible(most);
      EventsOfMore(most, op);
      var s := L.Run(EventsOf(most));
      NothingIsEnabled(s);
      if Sensible(s, op) {
        SensibleIsEnabled(s, op);
      }
      L.RunExtends(EventsOf(most), if Sensible(s, op) then EventOf(s, op) else L.Nothing);
    }
  }

  lemma NothingIsEnabled(s: L.State)
    ensures L.Enabled(s, L.Nothing) && L.Next(s, L.Nothing) == s
  {
  }

  /** The events of a prefix are a prefix of the events. */
  lemma {:induction false} EventsOfPrefix(ops: seq<Operation>, k: nat)
    requires k <= |ops|
    ensures EventsOf(ops[..k]) == EventsOf(ops)[..k]
    decreases |ops| - k
  {
    hide StatusOf, EventOf, Sensible, L.Run, EventsOf;
    if k == |ops| {
      assert ops[..k] == ops;
    } else {
      EventsOfPrefix(ops, k + 1);
      assert ops[..k + 1] == ops[..k] + [ops[k]];
      EventsOfMore(ops[..k], ops[k]);
    }
  }

  /** Over every run of operations: the key store, the live counter and the handles agree before each of
      them and at the end, exactly if no last shutdown comes under a handle that owns a key; and always
      the count is balanced, and the backend is up exactly while it is positive. */
  lemma RunsAgree(ops: seq<Operation>)
    ensures L.Supported(EventsOf(ops)) <==> forall k :: 0 <= k <= |ops| ==> L.Consistent(StateBefore(ops, k))
    ensures forall k :: 0 <= k <= |ops| ==>
              var s, events := StateBefore(ops, k), EventsOf(ops[..k]);
              s.refcount == L.OkInits(events) - L.OkShutdowns(events) && (s.up <==> s.refcount > 0)
  {
    hide L.Consistent, L.Supported, L.OkInits, L.OkShutdowns, L.Run, L.Possible, EventsOf;
    var events := EventsOf(ops);
    EventsArePossible(ops);
    L.AgreesThroughoutIff(events);
    forall k | 0 <= k <= |ops|
      ensures StateBefore(ops, k) == L.Run(events[..k])
      ensures var s, events := StateBefore(ops, k), EventsOf(ops[..k]);
              s.refcount == L.OkInits(events) - L.OkShutdowns(events) && (s.up <==> s.refcount > 0)
    {
      EventsOfPrefix(ops, k);
      L.CountIsBalance(EventsOf(ops[..k]));
    }
  }

  /** What operation i of a run returns, if it happens. */
  function Returns(ops: seq<Operation>, i: nat): Option<Status>
    requires i < |ops|
  {
    var s := StateBefore(ops, i);
    if Sensible(s, ops[i]) then Some(StatusOf(s, ops[i])) else None
  }

  lemma RunStep(ops: seq<Operation>, i: nat)
    requires i < |ops|
    ensures var s := StateBefore(ops, i);
            StateBefore(ops, i + 1) == if Sensible(s, ops[i]) then L.Next(s, EventOf(s, ops[i])) else s
    ensures StateBefore(ops, i).refcount <= L.MAX_COUNT
  {
    hide StatusOf, EventOf, Sensible, L.Next, L.Run, EventsOf;
    var before := EventsOf(ops[..i]);
    var s := L.Run(before);
    assert ops[..i + 1] == ops[..i] + [ops[i]];
    EventsOfMore(ops[..i], ops[i]);
    NothingIsEnabled(s);
    L.RunExtends(before, if Sensible(s, ops[i]) then EventOf(s, ops[i]) else L.Nothing);
    L.CountIsBalance(before);
  }

  lemma RunEnds(ops: seq<Operation>)
    ensures StateBefore(ops, 0) == L.INITIAL && StateBefore(ops, |ops|) == L.Run(EventsOf(ops))
  {
    assert ops[..0] == [] && ops[..|ops|] == ops;
  }

  /** The adapter, driven through any operations: it returns the statuses of the run and ends in its
      state; and the key store, the live counter and the handles agreed before every operation and at
      the end, exactly if no last shutdown came under a handle that owns a key. */
  method Drive(ops: seq<Operation>) returns (lib: Adapter, statuses: seq<Option<Status>>)
    ensures fresh(lib) && lib.Now() == L.Run(EventsOf(ops))
    ensures |statuses| == |ops|
    ensures forall i :: 0 <= i < |ops| ==>
              statuses[i] == if Sensible(StateBefore(ops, i), ops[i]) then Some(StatusOf(StateBefore(ops, i), ops[i])) else None
    ensures L.Supported(EventsOf(ops)) <==> forall k :: 0 <= k <= |ops| ==> L.Consistent(StateBefore(ops, k))
  {
    hide L.Next, L.Run, L.Consistent, L.Supported, StatusOf, EventOf, Sensible, EventsOf, StateBefore;
    lib := new Adapter();
    statuses := [];
    RunEnds(ops);
    for i := 0 to |ops|
      invariant fresh(lib) && lib.Now() == StateBefore(ops, i)
      invariant |statuses| == i && forall j :: 0 <= j < i ==> statuses[j] == Returns(ops, j)
    {
      var st: Option<Status> := None;
      RunStep(ops, i);
      if Sensible(lib.Now(), ops[i]) {
        var returned := Perform(lib, ops[i]);
        st := Some(returned);
      }
      statuses := statuses + [st];
    }
    RunsAgree(ops);
  }
}
