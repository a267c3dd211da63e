/** The adapter's constructors, destructors and one-shot operations, step by step as the C code runs
    them: what each does to the key store, the live counter and the set of handles when any backend
    step may fail. */
module Library {
  import opened Options
  import opened Statuses
  import opened Psa
  import opened Lifetimes

  /** The backend's answers while a key is exported into a handle (`pkey_from_psa`). */
  datatype Exported = Exported(attributes: Answer, known: bool, memory: bool, material: Answer)

  function ExportStatus(x: Exported): Status {
    if x.attributes.ps != Success then FromPsa(x.attributes.ps)
    else if !x.known then Unsupported
    else if !x.memory then Memory
    else FromPsa(x.material.ps)
  }

  predicate ExportStarved(x: Exported) {
    x.attributes.starved || (x.attributes.ps == Success && x.known && x.memory && x.material.starved)
  }

  /** How a public-key handle is made: generated, from raw material, or the public half of another. */
  datatype Maker = Generating | Importing | Publishing

  /** The type argument: RSA, a curve with its size, or something else. */
  datatype KeyKind = RsaKind | CurveKind(bits: nat) | NoKind

  /** A call of `zuc_pkey_generate`, `zuc_pkey_import` or `zuc_pkey_public` with what it checks. */
  datatype MakeCall =
    | Generate(available: bool, kind: KeyKind, bits: nat)
    | ImportRaw(nullData: bool, len: nat, available: bool, kind: KeyKind)
    | PublicHalf(nullKey: bool)

  function MakerOf(call: MakeCall): Maker {
    match call
    case Generate(_, _, _) => Generating
    case ImportRaw(_, _, _, _) => Importing
    case PublicHalf(_) => Publishing
  }

  /** Their argument checks, in order. */
  function MakeCheck(ready: bool, call: MakeCall): Status {
    match call
    case Generate(available, kind, bits) =>
      if !ready then NotReady
      else if !available then Unsupported
      else (match kind
            case RsaKind => if bits < 1024 || bits > 4096 then BadLength else Ok
            case CurveKind(size) => if bits != 0 && bits != size then BadLength else Ok
            case NoKind => Unsupported)
    case ImportRaw(nullData, len, available, kind) =>
      if !ready then NotReady
      else if nullData || len == 0 then InvalidArgument
      else if !available || kind == NoKind then Unsupported
      else Ok
    case PublicHalf(nullKey) =>
      if nullKey then InvalidArgument else if !ready then NotReady else Ok
  }

  function MakerError(m: Maker, ps: PsaStatus): Status {
    if m == Importing && ps != Success && ps != InsufficientMemory then InvalidArgument else FromPsa(ps)
  }

  class Adapter {
    var refcount: nat
    var up: bool
    var store: set<nat>
    var handles: map<nat, Handle>
    var live: int
    var allocFailed: bool

    function Now(): State
      reads this
    {
      State(refcount, up, store, handles, live)
    }

    predicate Ready()
      reads this
    {
      refcount > 0
    }

    constructor ()
      ensures Now() == INITIAL && !allocFailed
    {
      refcount, up, store, handles, live, allocFailed := 0, false, {}, map[], 0, false;
    }

    // --- src/zuc_backend.c ----------------------------------------------

    /** `zuc_init` */
    method Init(start: PsaStatus) returns (st: Status)
      requires refcount <= MAX_COUNT
      modifies this`refcount, this`up
      ensures Now() == Next(old(Now()), Lifetimes.Init(start == Success)) && refcount <= MAX_COUNT
      ensures st == Ok <==> Succeeds(old(Now()), Lifetimes.Init(start == Success))
      ensures st != Ok ==> st == if old(refcount) == MAX_COUNT then Internal else FromPsa(start)
    {
      if refcount > 0 {
        if refcount == MAX_COUNT {
          return Internal;
        }
        refcount := refcount + 1;
        return Ok;
      }
      if start != Success {
        return FromPsa(start);
      }
      refcount, up := 1, true;
      return Ok;
    }

    /** `zuc_shutdown` */
    method Shutdown() returns (st: Status)
      modifies this`refcount, this`up, this`store
      ensures Now() == Next(old(Now()), Lifetimes.Shutdown)
      ensures st == Ok <==> Succeeds(old(Now()), Lifetimes.Shutdown)
      ensures st != Ok ==> st == InvalidArgument
    {
      if refcount == 0 {
        return InvalidArgument;
      }
      refcount := refcount - 1;
      if refcount == 0 {
        up, store := false, {};
      }
      return Ok;
    }

    // --- backend steps --------------------------------------------------

    /** `psa_import_key`: on success the key is in the store under the unused id. */
    method Import(a: Answer, id: nat)
      requires id !in store
      modifies this`store, this`allocFailed
      ensures store == (if a.ps == Success then old(store) + {id} else old(store))
      ensures allocFailed == (old(allocFailed) || a.starved)
    {
      Step(a);
      if a.ps == Success {
        store := store + {id};
      }
    }

    /** `psa_destroy_key` */
    method Destroy(id: nat)
      modifies this`store
      ensures store == old(store) - {id}
    {
      store := store - {id};
    }

    /** Any other backend step: `zuc_int_calloc` remembers a failed allocation. */
    method Step(a: Answer)
      modifies this`allocFailed
      ensures allocFailed == (old(allocFailed) || a.starved)
    {
      if a.starved {
        allocFailed := true;
      }
    }

    /** `zuc_int_alloc_watch` */
    method AllocWatch()
      modifies this`allocFailed
      ensures !allocFailed
    {
      allocFailed := false;
    }

    // --- constructors and destructors -----------------------------------

    /** `zuc_hash_new`, once `out` is not NULL */
    method HashNew(available: bool, calloc: bool, setup: Answer, addr: nat) returns (st: Status)
      requires addr !in handles
      modifies this
      ensures st == HashNewStatus(old(Ready()), available, calloc, setup)
      ensures allocFailed == (old(allocFailed) || (old(Ready()) && available && calloc && setup.starved))
      ensures Now() == Next(old(Now()), if st == Ok then New(addr, HashHandle) else Nothing)
    {
      if !Ready() {
        return NotReady;
      }
      if !available {
        return Unsupported;
      }
      if !calloc {
        return Memory;
      }
      Step(setup);
      if setup.ps != Success {
        return FromPsa(setup.ps);
      }
      handles := handles[addr := HashHandle];
      live := live + 1;
      return Ok;
    }

    /** `zuc_hmac_new`, once `out` is not NULL; `hashed` answers the reduction of an over-long key. */
    method HmacNew(nullKey: bool, available: bool, calloc: bool, reduce: bool, hashed: Answer, imported: Answer,
                   setup: Answer, addr: nat, id: nat)
      returns (st: Status)
      requires addr !in handles && id !in store
      modifies this
      ensures st == HmacNewStatus(old(Ready()), nullKey, available, calloc, reduce, hashed, imported, setup)
      ensures var called := old(Ready()) && !nullKey && available && calloc;
              var reduced := called && (!reduce || hashed.ps == Success);
              allocFailed == (old(allocFailed) || (called && reduce && hashed.starved) || (reduced && imported.starved)
                              || (reduced && imported.ps == Success && setup.starved))
      ensures Now() == Next(old(Now()), if st == Ok then New(addr, HmacHandle(id)) else Nothing)
    {
      if !Ready() {
        return NotReady;
      }
      if nullKey {
        return InvalidArgument;
      }
      if !available {
        return Unsupported;
      }
      if !calloc {
        return Memory;
      }
      if reduce {
        Step(hashed);
        if hashed.ps != Success {
          return FromPsa(hashed.ps);
        }
      }
      Import(imported, id);
      if imported.ps != Success {
        return FromPsa(imported.ps);
      }
      Step(setup);
      if setup.ps != Success {
        Destroy(id);
        return FromPsa(setup.ps);
      }
      handles := handles[addr := HmacHandle(id)];
      live := live + 1;
      return Ok;
    }

    /** `zuc_aes_new`, once `out` is not NULL */
    method AesNew(nullKey: bool, keyLen: nat, calloc: bool, imported: Answer, addr: nat, id: nat)
      returns (st: Status)
      requires addr !in handles && id !in store
      modifies this
      ensures st == AesNewStatus(old(Ready()), nullKey, keyLen, calloc, imported)
      ensures allocFailed == (old(allocFailed)
                              || (old(Ready()) && !nullKey && (keyLen == 16 || keyLen == 24 || keyLen == 32) && calloc && imported.starved))
      ensures Now() == Next(old(Now()), if st == Ok then New(addr, AesHandle(id)) else Nothing)
    {
      if !Ready() {
        return NotReady;
      }
      if nullKey {
        return InvalidArgument;
      }
      if keyLen != 16 && keyLen != 24 && keyLen != 32 {
        return BadLength;
      }
      if !calloc {
        return Memory;
      }
      Import(imported, id);
      if imported.ps != Success {
        return FromPsa(imported.ps);
      }
      handles := handles[addr := AesHandle(id)];
      live := live + 1;
      return Ok;
    }

    /** `zuc_hash_free`, `zuc_hmac_free`, `zuc_aes_free`, `zuc_pkey_free`: NULL, or a handle that has
        not been freed yet. */
    method Free(h: Option<nat>)
      requires h.Some? ==> h.value in handles
      modifies this`store, this`handles, this`live
      ensures Now() == Next(old(Now()), if h.Some? then Lifetimes.Free(h.value) else Nothing)
    {
      if h.None? {
        return;
      }
      match handles[h.value] {
        case HmacHandle(key) => Destroy(key);
        case AesHandle(key) => Destroy(key);
        case _ =>
      }
      handles := handles - {h.value};
      live := live - 1;
    }

    // --- one-shot operations --------------------------------------------

    /** `zuc_hmac_compute` and `aead_run`, past their argument checks: import, work, destroy
        on every path. */
    method OneShot(imported: Answer, work: Answer, id: nat) returns (st: Status)
      requires id !in store
      modifies this`store, this`allocFailed
      ensures Now() == old(Now())
      ensures st == OneShotStatus(imported, work)
      ensures allocFailed == (old(allocFailed) || imported.starved || (imported.ps == Success && work.starved))
    {
      Import(imported, id);
      if imported.ps != Success {
        return FromPsa(imported.ps);
      }
      Step(work);
      Destroy(id);
      return FromPsa(work.ps);
    }

    /** `pkey_from_psa`: a handle with the exported material of a key in the store. */
    method PkeyFromPsa(x: Exported, addr: nat) returns (st: Status)
      requires addr !in handles && Ready()
      modifies this`handles, this`live, this`allocFailed
      ensures st == ExportStatus(x)
      ensures Now() == Next(old(Now()), if st == Ok then New(addr, PkeyHandle) else Nothing)
      ensures allocFailed == (old(allocFailed) || ExportStarved(x))
    {
      Step(x.attributes);
      if x.attributes.ps != Success {
        return FromPsa(x.attributes.ps);
      }
      if !x.known {
        return Unsupported;
      }
      if !x.memory {
        return Memory;
      }
      Step(x.material);
      if x.material.ps != Success {
        return FromPsa(x.material.ps);
      }
      handles := handles[addr := PkeyHandle];
      live := live + 1;
      return Ok;
    }

    /** The common run of `pkey_generate_impl`, `pkey_import_impl` and `pkey_public_impl` past their
        argument checks: a key enters the store, is exported into a handle, and leaves the store. */
    method MakePkey(m: Maker, imported: Answer, x: Exported, addr: nat, id: nat) returns (st: Status)
      requires addr !in handles && id !in store && Ready()
      modifies this`store, this`handles, this`live, this`allocFailed
      ensures st == MadeStatus(m, imported, x)
      ensures Now() == Next(old(Now()), if st == Ok then New(addr, PkeyHandle) else Nothing)
      ensures allocFailed == (old(allocFailed) || MadeStarved(imported, x))
    {
      Import(imported, id);
      if imported.ps != Success {
        return MakerError(m, imported.ps);
      }
      st := PkeyFromPsa(x, addr);
      Destroy(id);
    }

    /** The tail of `pkey_parse_impl`: a handle that turns out not to be private, when a private one
        was asked for, is freed again. */
    method ParseTail(imported: Answer, x: Exported, wantPrivate: bool, isPrivate: bool, addr: nat, id: nat)
      returns (st: Status)
      requires addr !in handles && id !in store && Ready()
      modifies this`store, this`handles, this`live, this`allocFailed
      ensures st == ParseStatus(imported, x, wantPrivate, isPrivate)
      ensures Now() == Next(old(Now()), if st == Ok then New(addr, PkeyHandle) else Nothing)
      ensures allocFailed == (old(allocFailed) || MadeStarved(imported, x))
    {
      ghost var s := Now();
      st := MakePkey(Importing, imported, x, addr, id);
      if st == Ok && wantPrivate && !isPrivate {
        Free(Some(addr));
        assert s.handles[addr := PkeyHandle] - {addr} == s.handles;
        return InvalidArgument;
      }
    }

    /** `public_der`: the public material of a handle. For a private one a second handle is made,
        emptied and freed, so nothing is left of it. */
    method PublicDer(isPrivate: bool, malloc: bool, imported: Answer, x: Exported, addr: nat, id: nat)
      returns (st: Status)
      requires addr !in handles && id !in store && Ready()
      modifies this`store, this`handles, this`live, this`allocFailed
      ensures st == PublicStatus(isPrivate, malloc, imported, x)
      ensures Now() == old(Now())
      ensures allocFailed == (old(allocFailed) || (isPrivate && MadeStarved(imported, x)))
    {
      if !isPrivate {
        return if malloc then Ok else Memory;
      }
      ghost var s := Now();
      st := MakePkey(Publishing, imported, x, addr, id);
      if st != Ok {
        return;
      }
      Free(Some(addr));
      assert s.handles[addr := PkeyHandle] - {addr} == s.handles;
    }
  }

  // --- what they return ---------------------------------------------------

  function HashNewStatus(ready: bool, available: bool, calloc: bool, setup: Answer): Status {
    if !ready then NotReady else if !available then Unsupported else if !calloc then Memory else FromPsa(setup.ps)
  }

  function HmacNewStatus(ready: bool, nullKey: bool, available: bool, calloc: bool, reduce: bool, hashed: Answer,
                         imported: Answer, setup: Answer): Status
  {
    if !ready then NotReady
    else if nullKey then InvalidArgument
    else if !available then Unsupported
    else if !calloc then Memory
    else if reduce && hashed.ps != Success then FromPsa(hashed.ps)
    else if imported.ps != Success then FromPsa(imported.ps)
    else FromPsa(setup.ps)
  }

  function AesNewStatus(ready: bool, nullKey: bool, keyLen: nat, calloc: bool, imported: Answer): Status {
    if !ready then NotReady
    else if nullKey then InvalidArgument
    else if keyLen !in {16, 24, 32} then BadLength
    else if !calloc then Memory
    else FromPsa(imported.ps)
  }

  function OneShotStatus(imported: Answer, work: Answer): Status {
    if imported.ps != Success then FromPsa(imported.ps) else FromPsa(work.ps)
  }

  function ParseStatus(imported: Answer, x: Exported, wantPrivate: bool, isPrivate: bool): Status {
    var made := MadeStatus(Importing, imported, x);
    if made != Ok then made else if wantPrivate && !isPrivate then InvalidArgument else Ok
  }

  function MadeStatus(m: Maker, imported: Answer, x: Exported): Status {
    if imported.ps != Success then MakerError(m, imported.ps) else ExportStatus(x)
  }

  predicate MadeStarved(imported: Answer, x: Exported) {
    imported.starved || (imported.ps == Success && ExportStarved(x))
  }

  function PublicStatus(isPrivate: bool, malloc: bool, imported: Answer, x: Exported): Status {
    if isPrivate then MadeStatus(Publishing, imported, x) else if malloc then Ok else Memory
  }

  // --- which status means what --------------------------------------------

  /** `zuc_hash_new` and `zuc_aes_new`: each refusal has its own cause, in this order; an AES key has 16, 24 or
      32 bytes. */
  lemma NewExactly(ready: bool, available: bool, nullKey: bool, keyLen: nat, calloc: bool, a: Answer)
    ensures var st := HashNewStatus(ready, available, calloc, a);
            && (st == NotReady <==> !ready)
            && (ready && !available ==> st == Unsupported) && (ready && available && !calloc ==> st == Memory)
            && (ready && available && calloc ==> st == FromPsa(a.ps))
    ensures var st, fits := AesNewStatus(ready, nullKey, keyLen, calloc, a), keyLen == 16 || keyLen == 24 || keyLen == 32;
            && (st == NotReady <==> !ready)
            && (ready && nullKey ==> st == InvalidArgument) && (ready && !nullKey && !fits ==> st == BadLength)
            && (ready && !nullKey && fits && !calloc ==> st == Memory)
            && (ready && !nullKey && fits && calloc ==> st == FromPsa(a.ps))
  {
  }

  /** `zuc_hmac_new` is OK exactly when the call is in order and every step of the backend that it needs goes
      well; the first that does not is what it reports. */
  lemma HmacNewExactly(ready: bool, nullKey: bool, available: bool, calloc: bool, reduce: bool, hashed: Answer,
                       imported: Answer, setup: Answer)
    ensures var st, called := HmacNewStatus(ready, nullKey, available, calloc, reduce, hashed, imported, setup),
                              ready && !nullKey && available && calloc;
            && (st == Ok <==> called && (!reduce || hashed.ps == Success) && imported.ps == Success && setup.ps == Success)
            && (st == NotReady <==> !ready) && (ready && nullKey ==> st == InvalidArgument)
            && (ready && !nullKey && !available ==> st == Unsupported) && (ready && !nullKey && available && !calloc ==> st == Memory)
            && (called && reduce && hashed.ps != Success ==> st == FromPsa(hashed.ps))
            && (called && (!reduce || hashed.ps == Success) && imported.ps != Success ==> st == FromPsa(imported.ps))
            && (called && (!reduce || hashed.ps == Success) && imported.ps == Success ==> st == FromPsa(setup.ps))
  {
  }

  /** The argument checks of `zuc_pkey_generate`, `zuc_pkey_import` and `zuc_pkey_public`: RSA keys have 1024 to
      4096 bits, a curve its own size or none given. */
  lemma MakeCheckExactly(ready: bool, available: bool, kind: KeyKind, bits: nat, isNull: bool, len: nat)
    ensures var st := MakeCheck(ready, Generate(available, kind, bits));
            && (st == NotReady <==> !ready)
            && (st == Unsupported <==> ready && (!available || kind == NoKind))
            && (st == Ok <==> ready && available && ((kind == RsaKind && 1024 <= bits <= 4096)
                                                      || (kind.CurveKind? && (bits == 0 || bits == kind.bits))))
            && st in {Ok, NotReady, Unsupported, BadLength}
    ensures var st := MakeCheck(ready, ImportRaw(isNull, len, available, kind));
            && (st == NotReady <==> !ready) && (st == InvalidArgument <==> ready && (isNull || len == 0))
            && (st == Ok <==> ready && !isNull && len > 0 && available && kind != NoKind)
            && st in {Ok, NotReady, InvalidArgument, Unsupported}
    ensures var st := MakeCheck(ready, PublicHalf(isNull));
            (st == InvalidArgument <==> isNull) && (st == NotReady <==> !isNull && !ready) && (st == Ok <==> !isNull && ready)
    ensures MakerOf(Generate(available, kind, bits)) == Generating && MakerOf(ImportRaw(isNull, len, available, kind)) == Importing
    ensures MakerOf(PublicHalf(isNull)) == Publishing
  {
  }

  /** A key that is made, and the public half of one: OK exactly when import, attributes, memory and export all go
      well. Key material that the backend refuses is an argument error, but only when it was the caller's. */
  lemma MadeExactly(m: Maker, imported: Answer, x: Exported, isPrivate: bool, malloc: bool, wantPrivate: bool, foundPrivate: bool)
    ensures var st := MadeStatus(m, imported, x);
            && (st == Ok <==> imported.ps == Success && x.attributes.ps == Success && x.known && x.memory && x.material.ps == Success)
            && (imported.ps != Success && m == Importing && imported.ps != InsufficientMemory ==> st == InvalidArgument)
            && (imported.ps != Success && (m != Importing || imported.ps == InsufficientMemory) ==> st == FromPsa(imported.ps))
            && (imported.ps == Success && x.attributes.ps != Success ==> st == FromPsa(x.attributes.ps))
            && (imported.ps == Success && x.attributes.ps == Success && !x.known ==> st == Unsupported)
            && (imported.ps == Success && x.attributes.ps == Success && x.known && !x.memory ==> st == Memory)
            && (imported.ps == Success && x.attributes.ps == Success && x.known && x.memory ==> st == FromPsa(x.material.ps))
    ensures MadeStarved(imported, x) <==>
            || imported.starved
            || (imported.ps == Success && x.attributes.starved)
            || (imported.ps == Success && x.attributes.ps == Success && x.known && x.memory && x.material.starved)
    ensures PublicStatus(true, malloc, imported, x) == MadeStatus(Publishing, imported, x)
    ensures PublicStatus(false, malloc, imported, x) == if malloc then Ok else Memory
    ensures var st, made := ParseStatus(imported, x, wantPrivate, foundPrivate), MadeStatus(Importing, imported, x);
            && (made != Ok ==> st == made) && (made == Ok && wantPrivate && !foundPrivate ==> st == InvalidArgument)
            && (made == Ok && (!wantPrivate || foundPrivate) ==> st == Ok)
    ensures OneShotStatus(imported, x.material) == Ok <==> imported.ps == Success && x.material.ps == Success
    ensures imported.ps != Success ==> OneShotStatus(imported, x.material) == FromPsa(imported.ps)
    ensures imported.ps == Success ==> OneShotStatus(imported, x.material) == FromPsa(x.material.ps)
  {
  }
}
