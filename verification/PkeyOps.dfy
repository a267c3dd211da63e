/** The public-key operations of src/zuc_pkey.c that fill a caller's buffer: what a failure leaves
    behind, and which status it is reported as. */
module PkeyOps {
  import opened Bytes
  import opened Options
  import opened Statuses
  import opened Psa
  import opened Buffers
  import opened Digest
  import opened Library
  import opened KeyEncoding
  import opened KeyWriter

  datatype Family = RsaFamily | NistFamily | X25519Family

  datatype Key = Key(family: Family, isPrivate: bool, bits: nat, material: bytes)

  datatype Scheme = Pkcs1Sign | Pss | Ecdsa | EcdsaDeterministic | Oaep | Pkcs1Crypt | OtherScheme

  /** The hash argument: none, an available digest of some size, or something else. */
  datatype HashArg = NoHash | DigestOf(size: nat) | NotADigest

  datatype Use = Signing | Encrypting | Decrypting

  /** The backend's work on the output: its answer, what it leaves in the buffer, and the length. */
  datatype Work = Work(answer: Answer, left: bytes, len: nat)

  /** What `public_der` finds: the material of a public key, and of a private one what the backend
      exports of its public half. */
  function PublicMaterial(key: Key, public: bytes): bytes {
    if key.isPrivate then public else key.material
  }

  /** `ec_bytes` */
  function EcBytes(key: Key): nat {
    (key.bits + 7) / 8
  }

  /** `signature_size` */
  function SignatureSize(key: Key): nat {
    if key.family == RsaFamily then key.bits / 8 else 2 * EcBytes(key)
  }

  /** `sign_alg` is not 0 */
  predicate SignAlg(scheme: Scheme, hash: HashArg) {
    hash.DigestOf? && scheme in {Pkcs1Sign, Pss, Ecdsa, EcdsaDeterministic}
  }

  /** `crypt_alg` is not 0 */
  predicate CryptAlg(scheme: Scheme, hash: HashArg) {
    (scheme == Oaep && hash.DigestOf?) || (scheme == Pkcs1Crypt && hash == NoHash)
  }

  /** `scheme_fits` */
  predicate SchemeFits(key: Key, scheme: Scheme) {
    if scheme in {Pkcs1Sign, Pss} then key.family == RsaFamily
    else scheme in {Ecdsa, EcdsaDeterministic} && key.family == NistFamily
  }

  /** What each operation checks before it touches the backend, in order. */
  function UseCheck(use: Use, ready: bool, key: Option<Key>, input: Input, scheme: Scheme, hash: HashArg,
                    nullOut: bool, nullLen: bool, room: nat): Status
  {
    match use
    case Signing =>
      if key.None? || input.NullInput? || nullOut || nullLen then InvalidArgument
      else if !ready then NotReady
      else if !key.value.isPrivate then InvalidArgument
      else if !SignAlg(scheme, hash) then Unsupported
      else if !SchemeFits(key.value, scheme) then InvalidArgument
      else if |input.data| != hash.size || room < SignatureSize(key.value) then BadLength
      else Ok
    case Encrypting =>
      if key.None? || (input.NullInput? && input.len != 0) || nullOut || nullLen then InvalidArgument
      else if !ready then NotReady
      else if !CryptAlg(scheme, hash) || key.value.family != RsaFamily then Unsupported
      else if room < key.value.bits / 8 then BadLength
      else Ok
    case Decrypting =>
      if key.None? || input.NullInput? || nullOut || nullLen then InvalidArgument
      else if !ready then NotReady
      else if !key.value.isPrivate then InvalidArgument
      else if !CryptAlg(scheme, hash) || key.value.family != RsaFamily then Unsupported
      else Ok
  }

  /** How a failed operation is reported: one status for every bad ciphertext, and a plaintext that
      is too long as a length. */
  function UseError(use: Use, ps: PsaStatus): Status {
    match use
    case Signing => FromPsa(ps)
    case Encrypting => if ps == BadArgument then BadLength else FromPsa(ps)
    case Decrypting => if ps == Success then Ok else if ps == InsufficientMemory then Memory else Auth
  }

  function UseStatus(use: Use, check: Status, imported: Answer, work: Work): Status {
    if check != Ok then check
    else if imported.ps != Success then FromPsa(imported.ps)
    else UseError(use, work.answer.ps)
  }

  /** An allocation failed inside the backend during this very call. */
  predicate UseStarved(check: Status, imported: Answer, work: Work) {
    check == Ok && (imported.starved || (imported.ps == Success && work.answer.starved))
  }

  /** What `zuc_pkey_sign_hash`, `zuc_pkey_encrypt` and `zuc_pkey_decrypt` report; `room` is the size of
      the output, if there is one. */
  function UseReport(use: Use, ready: bool, key: Option<Key>, input: Input, scheme: Scheme, hash: HashArg, room: Option<nat>,
                     nullLen: bool, imported: Answer, work: Work): Status
  {
    var check := UseCheck(use, ready, key, input, scheme, hash, room.None?, nullLen, if room.None? then 0 else room.value);
    MemoryOr(UseStatus(use, check, imported, work), UseStarved(check, imported, work))
  }

  /** The output after a failure: wholly as it was, or wholly zero. */
  predicate Clean(before: bytes, after: bytes) {
    after == before || after == Zeros(|before|)
  }

  /** The backend overwrites the whole of a buffer. */
  method Fill(out: array<byte>, w: bytes)
    requires |w| == out.Length
    modifies out
    ensures out[..] == w
  {
    Store(out, 0, w);
  }

  /** `memcpy` to the start of a buffer. */
  method CopyTo(out: array<byte>, w: bytes)
    requires |w| <= out.Length
    modifies out
    ensures out[..|w|] == w && out[|w|..] == old(out[..])[|w|..]
  {
    Store(out, 0, w);
  }

  method Wipe(out: array<byte>)
    modifies out
    ensures out[..] == Zeros(out.Length)
  {
    SecureZero(out, At(0), out.Length);
  }

  lemma UseChecked(use: Use, ready: bool, key: Option<Key>, input: Input, scheme: Scheme, hash: HashArg,
                   nullOut: bool, nullLen: bool, room: nat)
    ensures UseCheck(use, ready, key, input, scheme, hash, nullOut, nullLen, room) == Ok ==> !nullOut
  {
  }

  /** `zuc_pkey_sign_hash`, `zuc_pkey_encrypt` and `zuc_pkey_decrypt`. */
  method UseKey(lib: Adapter, use: Use, key: Option<Key>, input: Input, scheme: Scheme, hash: HashArg,
                out: array?<byte>, nullLen: bool, imported: Answer, work: Work, id: nat)
    returns (st: Status, len: nat)
    requires id !in lib.store && (out != null ==> |work.left| == out.Length)
    modifies lib`store, lib`allocFailed, out
    ensures lib.Now() == old(lib.Now())
    ensures st == UseReport(use, lib.Ready(), key, input, scheme, hash, if out == null then None else Some(out.Length), nullLen,
                            imported, work)
    ensures st != Ok ==> len == 0 && (out != null ==> Clean(old(out[..]), out[..]))
    ensures st == Ok ==> out != null && out[..] == work.left && len == work.len
  {
    hide UseCheck, UseStatus, UseStarved, UseReport, Clean, MemoryOr;
    lib.AllocWatch();
    var room := if out == null then 0 else out.Length;
    UseChecked(use, lib.Ready(), key, input, scheme, hash, out == null, nullLen, room);
    st := UseCheck(use, lib.Ready(), key, input, scheme, hash, out == null, nullLen, room);
    UseReported(use, lib.Ready(), key, input, scheme, hash, if out == null then None else Some(room), nullLen, imported, work);
    if st != Ok {
      if out != null {
        Untouched(out[..]);
      }
      return st, 0;
    }
    st, len := UseImported(lib, use, out, imported, work, id);
    st := MemoryOr(st, lib.allocFailed);
  }

  lemma Untouched(m: bytes)
    ensures Clean(m, m)
  {
  }

  lemma UseReported(use: Use, ready: bool, key: Option<Key>, input: Input, scheme: Scheme, hash: HashArg, room: Option<nat>,
                    nullLen: bool, imported: Answer, work: Work)
    ensures var check := UseCheck(use, ready, key, input, scheme, hash, room.None?, nullLen, if room.None? then 0 else room.value);
            UseReport(use, ready, key, input, scheme, hash, room, nullLen, imported, work) ==
            if check != Ok then check else MemoryOr(UseStatus(use, Ok, imported, work), UseStarved(Ok, imported, work))
    ensures forall st, starved :: MemoryOr(st, starved) == Ok <==> st == Ok
  {
  }

  /** Import, the work, destroy, and the wiping of what a failure left. */
  method UseImported(lib: Adapter, use: Use, out: array<byte>, imported: Answer, work: Work, id: nat)
    returns (st: Status, len: nat)
    requires id !in lib.store && |work.left| == out.Length
    modifies lib`store, lib`allocFailed, out
    ensures lib.Now() == old(lib.Now()) && st == UseStatus(use, Ok, imported, work)
    ensures lib.allocFailed == (old(lib.allocFailed) || UseStarved(Ok, imported, work))
    ensures st != Ok ==> len == 0 && Clean(old(out[..]), out[..])
    ensures st == Ok ==> out[..] == work.left && len == work.len
  {
    lib.Import(imported, id);
    if imported.ps != Success {
      return FromPsa(imported.ps), 0;
    }
    lib.Step(work.answer);
    Fill(out, work.left);
    lib.Destroy(id);
    if work.answer.ps != Success {
      Wipe(out);
      return UseError(use, work.answer.ps), 0;
    }
    return Ok, work.len;
  }

  /** `pkey_export_impl`'s status; `public` is that of `public_der` and `size` the material's. */
  function ExportingStatus(ready: bool, key: Option<Key>, publicOnly: bool, nullOut: bool, nullLen: bool, public: Status,
                           size: nat, room: nat): Status
  {
    if !ready then NotReady
    else if key.None? || nullOut || nullLen then InvalidArgument
    else if key.value.isPrivate && !publicOnly then (if |key.value.material| > room then BadLength else Ok)
    else if public != Ok then public
    else if size > room then BadLength
    else Ok
  }

  /** What `zuc_pkey_export` reports. */
  function ExportReport(ready: bool, key: Option<Key>, publicOnly: bool, room: Option<nat>, nullLen: bool, malloc: bool,
                        imported: Answer, x: Exported, public: bytes): Status
  {
    var status := if key.None? then Ok else PublicStatus(key.value.isPrivate, malloc, imported, x);
    var size := if key.None? then 0 else |PublicMaterial(key.value, public)|;
    var starved := ready && key.Some? && room.Some? && !nullLen && key.value.isPrivate && publicOnly && MadeStarved(imported, x);
    MemoryOr(ExportingStatus(ready, key, publicOnly, room.None?, nullLen, status, size, if room.None? then 0 else room.value), starved)
  }

  /** `zuc_pkey_export`; `public` is what the backend exports of a private key's public half. */
  method Export(lib: Adapter, key: Option<Key>, publicOnly: bool, out: array?<byte>, nullLen: bool,
                malloc: bool, imported: Answer, x: Exported, public: bytes, addr: nat, id: nat)
    returns (st: Status, len: nat)
    requires addr !in lib.handles && id !in lib.store
    modifies lib`store, lib`handles, lib`live, lib`allocFailed, out
    ensures lib.Now() == old(lib.Now())
    ensures st != Ok ==> len == 0 && (out != null ==> out[..] == old(out[..]))
    ensures st == Ok ==> key.Some? && out != null && len <= out.Length && out[len..] == old(out[..])[len..]
    ensures st == Ok && key.value.isPrivate && publicOnly ==> out[..len] == public
    ensures st == Ok && !(key.value.isPrivate && publicOnly) ==> out[..len] == key.value.material
    ensures st == ExportReport(lib.Ready(), key, publicOnly, if out == null then None else Some(out.Length), nullLen,
                               malloc, imported, x, public)
  {
    lib.AllocWatch();
    if !lib.Ready() {
      return NotReady, 0;
    }
    if key.None? || out == null || nullLen {
      return InvalidArgument, 0;
    }
    if key.value.isPrivate && !publicOnly {
      if |key.value.material| > out.Length {
        return MemoryOr(BadLength, lib.allocFailed), 0;
      }
      CopyTo(out, key.value.material);
      return Ok, |key.value.material|;
    }
    st := lib.PublicDer(key.value.isPrivate, malloc, imported, x, addr, id);
    if st != Ok {
      return MemoryOr(st, lib.allocFailed), 0;
    }
    var material := PublicMaterial(key.value, public);
    if |material| > out.Length {
      return MemoryOr(BadLength, lib.allocFailed), 0;
    }
    CopyTo(out, material);
    return Ok, |material|;
  }

  // --- key agreement ----------------------------------------------------

  function AgreeCheck(ready: bool, key: Option<Key>, peer: Option<Key>, nullOut: bool, nullLen: bool, ecdh: bool, room: nat): Status {
    if !ready then NotReady
    else if key.None? || peer.None? || nullOut || nullLen then InvalidArgument
    else if key.value.family == RsaFamily || !ecdh then Unsupported
    else if !key.value.isPrivate || !SameCurve(key.value, peer.value) then InvalidArgument
    else if room < EcBytes(key.value) then BadLength
    else Ok
  }

  /** Equal `zuc_alg` types: the family, and for the NIST curves the size. */
  predicate SameCurve(a: Key, b: Key) {
    a.family == b.family && (a.family == NistFamily ==> a.bits == b.bits)
  }

  function AgreeStatus(check: Status, public: Status, imported: Answer, work: Work, montgomery: bool): Status {
    if check != Ok then check
    else if public != Ok then public
    else if imported.ps != Success then FromPsa(imported.ps)
    else if work.answer.ps == InsufficientMemory then Memory
    else if work.answer.ps != Success then InvalidArgument
    else if montgomery && (work.len > |work.left| || work.left[..work.len] == Zeros(work.len)) then InvalidArgument
    else Ok
  }

  predicate AgreeStarved(check: Status, peerPrivate: bool, malloc: bool, published: Answer, x: Exported,
                         imported: Answer, work: Work)
  {
    check == Ok &&
    ((peerPrivate && MadeStarved(published, x)) ||
     (PublicStatus(peerPrivate, malloc, published, x) == Ok &&
      (imported.starved || (imported.ps == Success && work.answer.starved))))
  }

  /** What `zuc_pkey_agree` reports. */
  function AgreeReport(ready: bool, key: Option<Key>, peer: Option<Key>, room: Option<nat>, nullLen: bool, ecdh: bool,
                       malloc: bool, published: Answer, x: Exported, imported: Answer, work: Work): Status
  {
    var check := AgreeCheck(ready, key, peer, room.None?, nullLen, ecdh, if room.None? then 0 else room.value);
    var public := if peer.None? then Ok else PublicStatus(peer.value.isPrivate, malloc, published, x);
    MemoryOr(AgreeStatus(check, public, imported, work, key.Some? && key.value.family == X25519Family),
             AgreeStarved(check, peer.Some? && peer.value.isPrivate, malloc, published, x, imported, work))
  }

  /** `zuc_pkey_agree`: an all-zero X25519 secret is refused (section 6.1 of RFC 7748). */
  method Agree(lib: Adapter, key: Option<Key>, peer: Option<Key>, out: array?<byte>, nullLen: bool, ecdh: bool,
               malloc: bool, published: Answer, x: Exported, imported: Answer, work: Work, addr: nat, id: nat)
    returns (st: Status, len: nat)
    requires addr !in lib.handles && id !in lib.store
    requires out != null ==> |work.left| == out.Length && work.len <= out.Length
    modifies lib`store, lib`handles, lib`live, lib`allocFailed, out
    ensures lib.Now() == old(lib.Now())
    ensures st != Ok ==> len == 0 && (out != null ==> Clean(old(out[..]), out[..]))
    ensures st == Ok ==> out != null && out[..] == work.left && len == work.len
    ensures st == Ok && key.Some? && key.value.family == X25519Family ==> exists i :: 0 <= i < len && out[i] != 0
    ensures st == AgreeReport(lib.Ready(), key, peer, if out == null then None else Some(out.Length), nullLen, ecdh, malloc,
                              published, x, imported, work)
  {
    hide AgreeCheck, PublicStatus, MadeStarved, MadeStatus, Clean, AgreeReport, AgreeStatus, AgreeStarved, MemoryOr;
    var room := if out == null then 0 else out.Length;
    AgreeChecked(lib.Ready(), key, peer, out == null, nullLen, ecdh, room);
    AgreeReported(lib.Ready(), key, peer, if out == null then None else Some(room), nullLen, ecdh, malloc, published, x, imported, work);
    if out != null {
      Cleaned(out[..]);
    }
    lib.AllocWatch();
    st := AgreeCheck(lib.Ready(), key, peer, out == null, nullLen, ecdh, room);
    if st != Ok {
      return st, 0;
    }
    st := lib.PublicDer(peer.value.isPrivate, malloc, published, x, addr, id);
    if st != Ok {
      return MemoryOr(st, lib.allocFailed), 0;
    }
    st, len := AgreeImported(lib, key.value.family == X25519Family, out, imported, work, id);
    st := MemoryOr(st, lib.allocFailed);
  }

  /** The report, from the check, the peer's public half and the agreement itself. */
  lemma AgreeReported(ready: bool, key: Option<Key>, peer: Option<Key>, room: Option<nat>, nullLen: bool, ecdh: bool,
                      malloc: bool, published: Answer, x: Exported, imported: Answer, work: Work)
    ensures var check := AgreeCheck(ready, key, peer, room.None?, nullLen, ecdh, if room.None? then 0 else room.value);
            var st := AgreeReport(ready, key, peer, room, nullLen, ecdh, malloc, published, x, imported, work);
            && (check != Ok ==> st == check)
            && (check == Ok ==>
                  && key.Some? && peer.Some?
                  && var public := PublicStatus(peer.value.isPrivate, malloc, published, x);
                     var made := peer.value.isPrivate && MadeStarved(published, x);
                     var agreed := AgreeStatus(Ok, Ok, imported, work, key.value.family == X25519Family);
                     st == if public != Ok then MemoryOr(public, made)
                           else MemoryOr(agreed, made || imported.starved || (imported.ps == Success && work.answer.starved)))
    ensures forall st, starved :: MemoryOr(st, starved) == Ok <==> st == Ok
  {
    hide AgreeCheck, PublicStatus, MadeStarved;
    AgreeChecked(ready, key, peer, room.None?, nullLen, ecdh, if room.None? then 0 else room.value);
  }

  /** Import, the agreement, destroy; an all-zero X25519 secret is refused, and a failure leaves zeros. */
  method AgreeImported(lib: Adapter, montgomery: bool, out: array<byte>, imported: Answer, work: Work, id: nat)
    returns (st: Status, len: nat)
    requires id !in lib.store && |work.left| == out.Length && work.len <= out.Length
    modifies lib`store, lib`allocFailed, out
    ensures lib.Now() == old(lib.Now()) && st == AgreeStatus(Ok, Ok, imported, work, montgomery)
    ensures lib.allocFailed == (old(lib.allocFailed) || imported.starved || (imported.ps == Success && work.answer.starved))
    ensures st != Ok ==> len == 0 && out[..] == Zeros(out.Length)
    ensures st == Ok ==> out[..] == work.left && len == work.len
    ensures st == Ok && montgomery ==> exists i :: 0 <= i < len && out[i] != 0
  {
    len := 0;
    lib.Import(imported, id);
    st := FromPsa(imported.ps);
    if st == Ok {
      lib.Step(work.answer);
      Fill(out, work.left);
      len := work.len;
      lib.Destroy(id);
      st := if work.answer.ps == Success then Ok
            else if work.answer.ps == InsufficientMemory then Memory else InvalidArgument;
    }
    if st == Ok && montgomery {
      var zero := AllZero(out, len);
      if zero {
        st := InvalidArgument;
      }
    }
    if st != Ok {
      Wipe(out);
      len := 0;
    }
  }

  /** The loop that looks for a non-zero byte of the secret. */
  method AllZero(out: array<byte>, len: nat) returns (zero: bool)
    requires len <= out.Length
    ensures zero <==> out[..len] == Zeros(len)
    ensures zero <==> forall j :: 0 <= j < len ==> out[j] == 0
  {
    zero := true;
    var i := 0;
    while i < len
      invariant 0 <= i <= len
      invariant zero <==> forall j :: 0 <= j < i ==> out[j] == 0
    {
      if out[i] != 0 {
        zero := false;
      }
      i := i + 1;
    }
    if !zero {
      var j :| 0 <= j < len && out[j] != 0;
      assert out[..len][j] != Zeros(len)[j];
    }
  }

  // --- writing ----------------------------------------------------------

  /** What the backend and the allocator contribute to `spki_der`, and the DER it then writes. */
  datatype Spki = Spki(imported: Answer, copied: Answer, malloc: bool, written: Answer, der: bytes)

  function PkError(ps: PsaStatus): Status {
    if ps == InsufficientMemory then Memory else Backend
  }

  function SpkiStatus(k: Spki): Status {
    if k.imported.ps != Success then FromPsa(k.imported.ps)
    else if k.copied.ps != Success then PkError(k.copied.ps)
    else if !k.malloc then Memory
    else if k.written.ps != Success then PkError(k.written.ps)
    else if k.der == [] then Backend
    else Ok
  }

  predicate SpkiStarved(k: Spki) {
    || k.imported.starved
    || (k.imported.ps == Success && (k.copied.starved || (k.copied.ps == Success && k.malloc && k.written.starved)))
  }

  /** `spki_der`: the key is imported, copied into a PK context, and destroyed before that is written. */
  method SpkiDer(lib: Adapter, k: Spki, id: nat) returns (st: Status, der: bytes)
    requires id !in lib.store
    modifies lib`store, lib`allocFailed
    ensures lib.Now() == old(lib.Now()) && st == SpkiStatus(k) && (st == Ok ==> der == k.der)
    ensures lib.allocFailed == (old(lib.allocFailed) || SpkiStarved(k))
  {
    lib.Import(k.imported, id);
    if k.imported.ps != Success {
      return FromPsa(k.imported.ps), [];
    }
    lib.Step(k.copied);
    lib.Destroy(id);
    if k.copied.ps != Success {
      return PkError(k.copied.ps), [];
    }
    if !k.malloc {
      return Memory, [];
    }
    lib.Step(k.written);
    if k.written.ps != Success || k.der == [] {
      return if k.written.ps == Success then Backend else PkError(k.written.ps), [];
    }
    return Ok, k.der;
  }

  /** What the backend and the allocator contribute to an encoding: `mallocPublic`, `published`, `x` and
      `public` to the public half of a private key, `malloc` to the encoding's own buffer. */
  datatype Encoding = Encoding(mallocPublic: bool, malloc: bool, published: Answer, x: Exported, public: bytes, spki: Spki)

  function CurveOf(bits: nat): Curve {
    if bits == 256 then P256 else if bits == 384 then P384 else P521
  }

  /** The private key that a handle holds; `public` is its public half. */
  function PrivateOf(key: Key, public: bytes): PrivateKey {
    match key.family
    case RsaFamily => Rsa(key.material)
    case NistFamily => Nist(CurveOf(key.bits), key.material, public)
    case X25519Family => X25519(key.material)
  }

  /** The encoder's status; `privateOut` asks for the private half. */
  function EncodeStatus(key: Key, format: Format, privateOut: bool, e: Encoding): Status {
    var own := if e.malloc then Ok else Memory;
    var public := PublicStatus(key.isPrivate, e.mallocPublic, e.published, e.x);
    if format == OtherFormat then InvalidArgument
    else if key.family != RsaFamily && IsPkcs1(format) && (!privateOut || key.family == X25519Family) then Unsupported
    else if !privateOut then (if IsPkcs1(format) then public else SpkiStatus(e.spki))
    else match key.family
      case RsaFamily => if !IsPkcs1(format) && |key.material| > 0xFFFF - 64 then Internal else own
      case NistFamily => if public != Ok then public else own
      case X25519Family => own
  }

  predicate EncodeStarved(key: Key, format: Format, privateOut: bool, e: Encoding) {
    && format != OtherFormat
    && if !privateOut then
         (if !IsPkcs1(format) then SpkiStarved(e.spki)
          else key.family == RsaFamily && key.isPrivate && MadeStarved(e.published, e.x))
       else key.family == NistFamily && key.isPrivate && MadeStarved(e.published, e.x)
  }

  /** What is encoded: PKCS#1 or SEC1, PKCS#8, or the public forms. */
  function EncodedKey(key: Key, format: Format, privateOut: bool, e: Encoding): bytes {
    if !privateOut then (if IsPkcs1(format) then PublicMaterial(key, e.public) else e.spki.der)
    else if !IsPkcs1(format) then Pkcs8(PrivateOf(key, e.public))
    else if key.family == NistFamily then Sec1(EcPrivate(key.material, Some(CurveOid(CurveOf(key.bits))), e.public))
    else key.material
  }

  /** The encoders under `pkey_write_impl`. */
  method Encode(lib: Adapter, key: Key, format: Format, privateOut: bool, e: Encoding, addr: nat, id: nat)
    returns (st: Status, der: bytes)
    requires privateOut ==> key.isPrivate
    requires addr !in lib.handles && id !in lib.store && lib.Ready()
    modifies lib`store, lib`handles, lib`live, lib`allocFailed
    ensures lib.Now() == old(lib.Now()) && st == EncodeStatus(key, format, privateOut, e)
    ensures lib.allocFailed == (old(lib.allocFailed) || EncodeStarved(key, format, privateOut, e))
    ensures st == Ok ==> der == EncodedKey(key, format, privateOut, e)
  {
    hide Pkcs8, Sec1, MadeStatus, MadeStarved, SpkiStatus, SpkiStarved;
    if format == OtherFormat {
      return InvalidArgument, [];
    }
    if !privateOut {
      if !IsPkcs1(format) {
        st, der := SpkiDer(lib, e.spki, id);
        return;
      }
      if key.family != RsaFamily {
        return Unsupported, [];
      }
      st := lib.PublicDer(key.isPrivate, e.mallocPublic, e.published, e.x, addr, id);
      return st, PublicMaterial(key, e.public);
    }
    var p: array?<byte>;
    match key.family {
      case RsaFamily =>
        if IsPkcs1(format) {
          return if e.malloc then Ok else Memory, key.material;
        }
        st, p := Pkcs8Wrap(key.material, e.malloc);
      case X25519Family =>
        st, p := EcEncode(PrivateOf(key, e.public), format, Ok, e.malloc);
      case NistFamily =>
        st := lib.PublicDer(key.isPrivate, e.mallocPublic, e.published, e.x, addr, id);
        st, p := EcEncode(PrivateOf(key, e.public), format, st, e.malloc);
    }
    der := if st == Ok then p[..] else [];
  }

  /** What `mbedtls_pem_write_buffer` does. */
  datatype Pem = Pem(answer: Answer, left: bytes, olen: nat)

  predicate IsPem(format: Format) {
    format == Pkcs1Pem || format == InfoPem
  }

  predicate PrivateOut(key: Key, publicOnly: bool) {
    key.isPrivate && !publicOnly
  }

  /** What `zuc_pkey_write` reports. */
  function WriteReport(ready: bool, key: Option<Key>, format: Format, publicOnly: bool, room: Option<nat>, nullLen: bool,
                       e: Encoding, pem: Pem): Status
  {
    if key.None? || room.None? || nullLen then InvalidArgument
    else if !ready then NotReady
    else
      var privateOut := PrivateOut(key.value, publicOnly);
      var encoded := EncodeStatus(key.value, format, privateOut, e);
      var size := |EncodedKey(key.value, format, privateOut, e)|;
      var starved := EncodeStarved(key.value, format, privateOut, e) || (encoded == Ok && IsPem(format) && pem.answer.starved);
      MemoryOr(if encoded != Ok then encoded else WritingStatus(format, size, room.value, pem), starved)
  }

  function WritingStatus(format: Format, size: nat, room: nat, pem: Pem): Status {
    if !IsPem(format) then (if size > room then BadLength else Ok)
    else if pem.answer.ps == BufferTooSmall then BadLength
    else if pem.answer.ps != Success || pem.olen == 0 then Backend
    else Ok
  }

  /** `zuc_pkey_write`: the encoding, and then the copy or the PEM writer into the caller's buffer. */
  method Write(lib: Adapter, key: Option<Key>, format: Format, publicOnly: bool, e: Encoding, pem: Pem,
               out: array?<byte>, nullLen: bool, addr: nat, id: nat)
    returns (st: Status, len: nat)
    requires out != null ==> |pem.left| == out.Length
    requires addr !in lib.handles && id !in lib.store
    modifies lib`store, lib`handles, lib`live, lib`allocFailed, out
    ensures lib.Now() == old(lib.Now())
    ensures st == WriteReport(lib.Ready(), key, format, publicOnly, if out == null then None else Some(out.Length), nullLen, e, pem)
    ensures st != Ok ==> len == 0 && (out != null ==> Clean(old(out[..]), out[..]))
    ensures st == Ok && !IsPem(format) ==>
              && key.Some? && out != null && len <= out.Length
              && out[..len] == EncodedKey(key.value, format, PrivateOut(key.value, publicOnly), e)
              && out[len..] == old(out[..])[len..]
    ensures st == Ok && IsPem(format) ==> out != null && out[..] == pem.left && len + 1 == pem.olen
    ensures st == Ok && format == Pkcs1Der && key.value.family == RsaFamily && key.value.isPrivate && publicOnly ==> out[..len] == e.public
    ensures st == Ok && format == Pkcs1Der && key.value.family == RsaFamily && !(key.value.isPrivate && publicOnly) ==>
              out[..len] == key.value.material
  {
    hide EncodeStatus, EncodeStarved, EncodedKey;
    lib.AllocWatch();
    if key.None? || out == null || nullLen {
      return InvalidArgument, 0;
    }
    if !lib.Ready() {
      return NotReady, 0;
    }
    var der;
    EncodedExactly(key.value, format, PrivateOut(key.value, publicOnly), e);
    st, der := Encode(lib, key.value, format, PrivateOut(key.value, publicOnly), e, addr, id);
    if st != Ok {
      return MemoryOr(st, lib.allocFailed), 0;
    }
    st, len := PutEncoded(lib, format, der, pem, out);
    if st != Ok {
      Wipe(out);
    }
    st := MemoryOr(st, lib.allocFailed);
  }

  /** DER as it is, or PEM through the backend's writer. */
  method PutEncoded(lib: Adapter, format: Format, der: bytes, pem: Pem, out: array<byte>) returns (st: Status, len: nat)
    requires |pem.left| == out.Length
    modifies lib`allocFailed, out
    ensures st == WritingStatus(format, |der|, out.Length, pem)
    ensures lib.allocFailed == (old(lib.allocFailed) || (IsPem(format) && pem.answer.starved))
    ensures st != Ok ==> len == 0
    ensures st == Ok && !IsPem(format) ==> len == |der| && out[..len] == der && out[len..] == old(out[..])[len..]
    ensures st == Ok && IsPem(format) ==> out[..] == pem.left && len + 1 == pem.olen
  {
    if !IsPem(format) {
      if |der| > out.Length {
        return BadLength, 0;
      }
      CopyTo(out, der);
      return Ok, |der|;
    }
    lib.Step(pem.answer);
    Fill(out, pem.left);
    if pem.answer.ps == BufferTooSmall {
      return BadLength, 0;
    }
    if pem.answer.ps != Success || pem.olen == 0 {
      return Backend, 0;
    }
    return Ok, pem.olen - 1;
  }

  /** What is encoded, format by format and key by key: RSA material as it is or in PKCS#8, a curve's key with the
      identifier of its own curve, and of a private key only the public half where that was asked for. */
  lemma EncodedExactly(key: Key, format: Format, privateOut: bool, e: Encoding)
    ensures var w, old1 := EncodedKey(key, format, privateOut, e), format == Pkcs1Der || format == Pkcs1Pem;
            && (!privateOut && old1 && key.isPrivate ==> w == e.public)
            && (!privateOut && old1 && !key.isPrivate ==> w == key.material)
            && (!privateOut && !old1 ==> w == e.spki.der)
            && (privateOut && key.family == RsaFamily ==> w == if old1 then key.material else Pkcs8(Rsa(key.material)))
            && (privateOut && key.family == X25519Family && !old1 ==> w == Pkcs8(X25519(key.material)))
            && (privateOut && key.family == NistFamily && key.bits == 256 ==>
                  w == if old1 then Sec1(EcPrivate(key.material, Some(OID_P256), e.public)) else Pkcs8(Nist(P256, key.material, e.public)))
            && (privateOut && key.family == NistFamily && key.bits == 384 ==>
                  w == if old1 then Sec1(EcPrivate(key.material, Some(OID_P384), e.public)) else Pkcs8(Nist(P384, key.material, e.public)))
            && (privateOut && key.family == NistFamily && key.bits == 521 ==>
                  w == if old1 then Sec1(EcPrivate(key.material, Some(OID_P521), e.public)) else Pkcs8(Nist(P521, key.material, e.public)))
  {
    hide Pkcs8, Sec1;
  }

  /** Which encodings there are: none in an unknown format, no PKCS#1 of a public curve key or of X25519, no RSA key
      past the wrapper's bound, and otherwise each exactly when the steps it needs go well. */
  lemma EncodeStatusExactly(key: Key, format: Format, privateOut: bool, e: Encoding)
    ensures var st, old1 := EncodeStatus(key, format, privateOut, e), format == Pkcs1Der || format == Pkcs1Pem;
            var own := if e.malloc then Ok else Memory;
            var known := format != OtherFormat;
            && (!known ==> st == InvalidArgument)
            && (known && key.family == RsaFamily && privateOut && old1 ==> st == own)
            && (known && key.family == RsaFamily && privateOut && !old1 ==> st == if |key.material| > 0xFFFF - 64 then Internal else own)
            && (known && key.family == RsaFamily && !privateOut && old1 ==>
                  st == PublicStatus(key.isPrivate, e.mallocPublic, e.published, e.x))
            && (known && key.family == NistFamily && privateOut ==>
                  var public := PublicStatus(key.isPrivate, e.mallocPublic, e.published, e.x); st == if public != Ok then public else own)
            && (known && key.family == X25519Family && privateOut ==> st == if old1 then Unsupported else own)
            && (known && key.family != RsaFamily && !privateOut && old1 ==> st == Unsupported)
            && (known && !privateOut && !old1 ==> st == SpkiStatus(e.spki))
    ensures var old1 := format == Pkcs1Der || format == Pkcs1Pem;
            EncodeStarved(key, format, privateOut, e) <==>
            || (format in {InfoDer, InfoPem} && !privateOut && SpkiStarved(e.spki))
            || (old1 && !privateOut && key.family == RsaFamily && key.isPrivate && MadeStarved(e.published, e.x))
            || (format != OtherFormat && privateOut && key.family == NistFamily && key.isPrivate && MadeStarved(e.published, e.x))
  {
    hide MadeStatus, MadeStarved, SpkiStatus, SpkiStarved;
  }

  /** `spki_der`: OK exactly when every step goes well and something was written. */
  lemma SpkiExactly(k: Spki)
    ensures var st := SpkiStatus(k);
            var imported, copied := k.imported.ps == Success, k.imported.ps == Success && k.copied.ps == Success;
            && (st == Ok <==> copied && k.malloc && k.written.ps == Success && k.der != [])
            && (!imported ==> st == FromPsa(k.imported.ps))
            && (imported && !copied ==> st == if k.copied.ps == InsufficientMemory then Memory else Backend)
            && (copied && !k.malloc ==> st == Memory)
            && (copied && k.malloc && k.written.ps == InsufficientMemory ==> st == Memory)
            && (copied && k.malloc && k.written.ps != InsufficientMemory && (k.written.ps != Success || k.der == []) ==> st == Backend)
    ensures SpkiStarved(k) <==>
            || k.imported.starved || (k.imported.ps == Success && k.copied.starved)
            || (k.imported.ps == Success && k.copied.ps == Success && k.malloc && k.written.starved)
  {
  }

  /** What `zuc_pkey_write` reports: NULLs before readiness, then the encoder, then a buffer that is too small or a
      PEM writer that failed; after a failed allocation, a lack of memory. */
  lemma WriteExactly(ready: bool, key: Option<Key>, format: Format, publicOnly: bool, room: Option<nat>, nullLen: bool,
                     e: Encoding, pem: Pem)
    ensures var st := WriteReport(ready, key, format, publicOnly, room, nullLen, e, pem);
            var given := key.Some? && room.Some? && !nullLen;
            && (!given ==> st == InvalidArgument) && (given && !ready ==> st == NotReady)
            && (given && ready ==>
                  var out := key.value.isPrivate && !publicOnly;
                  var encoded, starved := EncodeStatus(key.value, format, out, e), EncodeStarved(key.value, format, out, e);
                  var asPem := format == Pkcs1Pem || format == InfoPem;
                  && (encoded != Ok ==> st == if starved then Memory else encoded)
                  && (encoded == Ok && !asPem ==>
                        (st == Ok <==> |EncodedKey(key.value, format, out, e)| <= room.value) && (st != Ok && !starved ==> st == BadLength)
                        && (st != Ok && starved ==> st == Memory))
                  && (encoded == Ok && asPem ==>
                        && (st == Ok <==> pem.answer.ps == Success && pem.olen > 0)
                        && (st != Ok && (starved || pem.answer.starved) ==> st == Memory)
                        && (st != Ok && !starved && !pem.answer.starved ==>
                              st == if pem.answer.ps == BufferTooSmall then BadLength else Backend)))
  {
    hide EncodeStatus, EncodeStarved, EncodedKey;
  }

  /** Whatever private key is written as PKCS#8, a strict reader gets that key back from the bytes exactly
      while the body fits two length octets. An RSA key that does not fit is never written, and every
      key of the curves' sizes fits. */
  lemma WrittenKeyReads(ready: bool, key: Key, room: nat, e: Encoding, pem: Pem)
    requires WriteReport(ready, Some(key), InfoDer, false, Some(room), false, e, pem) == Ok && key.isPrivate
    ensures var private := PrivateOf(key, e.public);
            && ReadPkcs8(EncodedKey(key, InfoDer, true, e)) == (if |Pkcs8Body(private)| <= 0xFFFF then Some(private) else None)
            && (key.family == RsaFamily ==> |Pkcs8Body(private)| <= 0xFFFF)
            && (key.family == NistFamily && |key.material| <= 66 && |e.public| <= 133 ==> |Pkcs8Body(private)| <= 0xFFFF)
            && (key.family == X25519Family && |key.material| <= 32 ==> |Pkcs8Body(private)| <= 0xFFFF)
  {
    hide Pkcs8, Pkcs8Body, ReadPkcs8;
    var private := PrivateOf(key, e.public);
    Pkcs8Iff(private);
    if key.family == RsaFamily || (key.family == NistFamily && |key.material| <= 66 && |e.public| <= 133)
       || (key.family == X25519Family && |key.material| <= 32) {
      LengthsInRange(private);
    }
  }

  /** And it is the key that was written: RSA and X25519 by their material, a curve's key by its size in bits, its
      scalar and its point. */
  lemma WrittenKeyIs(ready: bool, key: Key, room: nat, e: Encoding, pem: Pem)
    requires WriteReport(ready, Some(key), InfoDer, false, Some(room), false, e, pem) == Ok && key.isPrivate
    requires key.family == NistFamily ==> |key.material| <= 66 && |e.public| <= 133
    requires key.family == X25519Family ==> |key.material| <= 32
    ensures var read := ReadPkcs8(EncodedKey(key, InfoDer, true, e));
            && (key.family == RsaFamily ==> read == Some(Rsa(key.material)))
            && (key.family == X25519Family ==> read == Some(X25519(key.material)))
            && (key.family == NistFamily && key.bits == 256 ==> read == Some(Nist(P256, key.material, e.public)))
            && (key.family == NistFamily && key.bits == 384 ==> read == Some(Nist(P384, key.material, e.public)))
            && (key.family == NistFamily && key.bits == 521 ==> read == Some(Nist(P521, key.material, e.public)))
  {
    hide Pkcs8, Pkcs8Body, ReadPkcs8, EncodedKey, WriteReport;
    WrittenKeyReads(ready, key, room, e, pem);
  }

  /** The SEC1 form of a key on a curve, as long as its body fits, reads back with that curve's identifier. */
  lemma WrittenSec1Is(key: Key, e: Encoding)
    requires key.family == NistFamily && |key.material| <= 66 && |e.public| <= 133
    ensures var read := ReadSec1(EncodedKey(key, Pkcs1Der, true, e));
            && (key.bits == 256 ==> read == Some(EcPrivate(key.material, Some(OID_P256), e.public)))
            && (key.bits == 384 ==> read == Some(EcPrivate(key.material, Some(OID_P384), e.public)))
            && (key.bits == 521 ==> read == Some(EcPrivate(key.material, Some(OID_P521), e.public)))
  {
    hide ReadSec1;
    var k := EcPrivate(key.material, Some(CurveOid(CurveOf(key.bits))), e.public);
    Sec1Size(k);
    Sec1Iff(k);
  }

  // --- over every call --------------------------------------------------

  /** After a failure the output is as it was, or every byte of it is zero. */
  lemma CleanExactly(before: bytes, after: bytes)
    ensures Clean(before, after) <==> after == before || (|after| == |before| && forall i :: 0 <= i < |after| ==> after[i] == 0)
  {
    assert (|after| == |before| && forall i :: 0 <= i < |after| ==> after[i] == 0) ==> after == Zeros(|before|);
  }

  /** Signing needs a private key, a digest with a scheme for the key's type, the digest's own length, and room for
      the modulus of an RSA key or twice the curve's size. */
  lemma SigningExactly(ready: bool, key: Option<Key>, input: Input, scheme: Scheme, hash: HashArg, nullOut: bool, nullLen: bool, room: nat)
    ensures var st := UseCheck(Signing, ready, key, input, scheme, hash, nullOut, nullLen, room);
            var given := key.Some? && input.Given? && !nullOut && !nullLen;
            var usable := given && ready && key.value.isPrivate;
            var scheme1, scheme2 := scheme == Pkcs1Sign || scheme == Pss, scheme == Ecdsa || scheme == EcdsaDeterministic;
            var named := hash.DigestOf? && (scheme1 || scheme2);
            var fits := usable && named && ((scheme1 && key.value.family == RsaFamily) || (scheme2 && key.value.family == NistFamily));
            var size := if fits && scheme1 then key.value.bits / 8 else if fits then 2 * ((key.value.bits + 7) / 8) else 0;
            && (st == NotReady <==> given && !ready)
            && (st == Unsupported <==> usable && !named)
            && (st == BadLength <==> fits && (|input.data| != hash.size || room < size))
            && (st == Ok <==> fits && |input.data| == hash.size && room >= size)
            && st in {Ok, NotReady, Unsupported, BadLength, InvalidArgument}
  {
  }

  /** Encryption and decryption are for RSA: OAEP with a digest, or PKCS#1 v1.5 with none. Decryption needs the
      private key; encryption room for the modulus, and a NULL message only when it is empty. */
  lemma CryptingExactly(ready: bool, key: Option<Key>, input: Input, scheme: Scheme, hash: HashArg, nullOut: bool, nullLen: bool, room: nat)
    ensures var st := UseCheck(Encrypting, ready, key, input, scheme, hash, nullOut, nullLen, room);
            var given := key.Some? && (input.Given? || input.len == 0) && !nullOut && !nullLen;
            var named := (scheme == Oaep && hash.DigestOf?) || (scheme == Pkcs1Crypt && hash == NoHash);
            var fits := given && ready && named && key.value.family == RsaFamily;
            && (st == InvalidArgument <==> !given) && (st == NotReady <==> given && !ready)
            && (st == BadLength <==> fits && room < key.value.bits / 8) && (st == Ok <==> fits && room >= key.value.bits / 8)
            && st in {Ok, NotReady, Unsupported, BadLength, InvalidArgument}
    ensures var st := UseCheck(Decrypting, ready, key, input, scheme, hash, nullOut, nullLen, room);
            var given := key.Some? && input.Given? && !nullOut && !nullLen;
            var named := (scheme == Oaep && hash.DigestOf?) || (scheme == Pkcs1Crypt && hash == NoHash);
            && (st == InvalidArgument <==> !given || (ready && !key.value.isPrivate)) && (st == NotReady <==> given && !ready)
            && (st == Ok <==> given && ready && key.value.isPrivate && named && key.value.family == RsaFamily)
            && st in {Ok, NotReady, Unsupported, InvalidArgument}
  {
  }

  /** What a use of a key reports once its arguments are accepted: OK exactly when import and work go well; a message
      that is too long for the key as a length; and a lack of memory exactly when a step reported it, or failed
      after an allocation had. */
  lemma UseExactly(use: Use, ready: bool, key: Option<Key>, input: Input, scheme: Scheme, hash: HashArg, room: Option<nat>,
                   nullLen: bool, imported: Answer, work: Work)
    ensures var check := UseCheck(use, ready, key, input, scheme, hash, room.None?, nullLen, if room.None? then 0 else room.value);
            var st, ps := UseReport(use, ready, key, input, scheme, hash, room, nullLen, imported, work), work.answer.ps;
            && (check != Ok ==> st == check)
            && (check == Ok && imported.ps != Success ==> st == if imported.starved then Memory else FromPsa(imported.ps))
            && (check == Ok && imported.ps == Success ==>
                  && (st == Ok <==> ps == Success)
                  && (ps != Success && (imported.starved || work.answer.starved || ps == InsufficientMemory) ==> st == Memory)
                  && (ps != Success && !imported.starved && !work.answer.starved && ps != InsufficientMemory ==>
                        st == if use == Decrypting then Auth else if use == Encrypting && ps == BadArgument then BadLength else FromPsa(ps)))
  {
    hide UseCheck;
  }

  /** What `zuc_pkey_export` reports: readiness before NULLs; its own material if that was asked for and it fits, or
      the public half. */
  lemma ExportExactly(ready: bool, key: Option<Key>, publicOnly: bool, room: Option<nat>, nullLen: bool, malloc: bool,
                      imported: Answer, x: Exported, public: bytes)
    ensures var st := ExportReport(ready, key, publicOnly, room, nullLen, malloc, imported, x, public);
            var given := key.Some? && room.Some? && !nullLen;
            && (st == NotReady <==> !ready) && (ready && !given ==> st == InvalidArgument)
            && (ready && given && key.value.isPrivate && !publicOnly ==>
                  st == if |key.value.material| > room.value then BadLength else Ok)
            && (ready && given && !key.value.isPrivate ==>
                  st == if !malloc then Memory else if |key.value.material| > room.value then BadLength else Ok)
            && (ready && given && key.value.isPrivate && publicOnly ==>
                  var made, starved := MadeStatus(Publishing, imported, x), MadeStarved(imported, x);
                  && (st == Ok <==> made == Ok && |public| <= room.value)
                  && (st != Ok ==> st == if starved then Memory else if made != Ok then made else BadLength))
  {
    hide MadeStatus, MadeStarved;
    NeverNotReady(imported, x);
  }

  lemma NeverNotReady(imported: Answer, x: Exported)
    ensures MadeStatus(Publishing, imported, x) != NotReady
  {
  }

  /** Key agreement needs a private key and a peer on the same curve, and room for its size. */
  lemma AgreeCheckExactly(ready: bool, key: Option<Key>, peer: Option<Key>, nullOut: bool, nullLen: bool, ecdh: bool, room: nat)
    ensures var st := AgreeCheck(ready, key, peer, nullOut, nullLen, ecdh, room);
            var given := ready && key.Some? && peer.Some? && !nullOut && !nullLen;
            var curve := given && key.value.family != RsaFamily && ecdh;
            var same := curve && key.value.isPrivate && key.value.family == peer.value.family
                        && (key.value.family == X25519Family || key.value.bits == peer.value.bits);
            && (st == NotReady <==> !ready)
            && (st == Unsupported <==> given && (key.value.family == RsaFamily || !ecdh))
            && (st == BadLength <==> same && room < (key.value.bits + 7) / 8)
            && (st == Ok <==> same && room >= (key.value.bits + 7) / 8)
            && st in {Ok, NotReady, InvalidArgument, Unsupported, BadLength}
  {
  }

  /** It is OK exactly when the peer's public half, the import and the agreement all go well, and the secret, if it
      is X25519's, is not all zeros; on the other curves the secret does not matter. */
  lemma AgreeExactly(ready: bool, key: Option<Key>, peer: Option<Key>, room: Option<nat>, nullLen: bool, ecdh: bool,
                     malloc: bool, published: Answer, x: Exported, imported: Answer, work: Work)
    requires work.len <= |work.left|
    ensures var check := AgreeCheck(ready, key, peer, room.None?, nullLen, ecdh, if room.None? then 0 else room.value);
            var st := AgreeReport(ready, key, peer, room, nullLen, ecdh, malloc, published, x, imported, work);
            && (check != Ok ==> st == check)
            && (check == Ok ==>
                  var public := PublicStatus(peer.value.isPrivate, malloc, published, x);
                  var starved := peer.value.isPrivate && MadeStarved(published, x);
                  var zero := key.value.family == X25519Family && forall i :: 0 <= i < work.len ==> work.left[i] == 0;
                  && (st == Ok <==> public == Ok && imported.ps == Success && work.answer.ps == Success && !zero)
                  && (public != Ok ==> st == if starved then Memory else public)
                  && (public == Ok && imported.ps != Success ==>
                        st == if starved || imported.starved then Memory else FromPsa(imported.ps))
                  && (public == Ok && imported.ps == Success && (work.answer.ps != Success || zero) ==>
                        st == if starved || imported.starved || work.answer.starved || work.answer.ps == InsufficientMemory then Memory
                              else InvalidArgument))
  {
    hide AgreeCheck, PublicStatus, MadeStarved;
    AgreeChecked(ready, key, peer, room.None?, nullLen, ecdh, if room.None? then 0 else room.value);
    ZeroSecret(work);
  }

  lemma Cleaned(m: bytes)
    ensures Clean(m, m) && Clean(m, Zeros(|m|))
  {
  }

  lemma AgreeChecked(ready: bool, key: Option<Key>, peer: Option<Key>, nullOut: bool, nullLen: bool, ecdh: bool, room: nat)
    ensures AgreeCheck(ready, key, peer, nullOut, nullLen, ecdh, room) == Ok ==> ready && key.Some? && peer.Some? && !nullOut
  {
  }

  lemma ZeroSecret(work: Work)
    requires work.len <= |work.left|
    ensures work.left[..work.len] == Zeros(work.len) <==> forall i :: 0 <= i < work.len ==> work.left[i] == 0
  {
    var s := work.left[..work.len];
    assert forall i :: 0 <= i < work.len ==> s[i] == work.left[i];
    assert (forall i :: 0 <= i < work.len ==> s[i] == 0) ==> s == Zeros(work.len);
  }

  /** For one key, one set of arguments and one import, decryption reports every backend failure but a
      lack of memory as the same status, so the status says nothing about the padding. */
  lemma DecryptStatusIsUniform(ready: bool, key: Option<Key>, input: Input, scheme: Scheme, hash: HashArg, room: Option<nat>,
                               nullLen: bool, imported: Answer, a: Work, b: Work)
    requires a.answer.ps != Success && b.answer.ps != Success
    requires a.answer.ps != InsufficientMemory && b.answer.ps != InsufficientMemory && a.answer.starved == b.answer.starved
    ensures UseReport(Decrypting, ready, key, input, scheme, hash, room, nullLen, imported, a) ==
            UseReport(Decrypting, ready, key, input, scheme, hash, room, nullLen, imported, b)
  {
  }

  /** Exactly when decryption reports that status: the call and the import were in order, and the
      backend failed without running out of memory. */
  lemma AuthIff(ready: bool, key: Option<Key>, input: Input, scheme: Scheme, hash: HashArg, room: Option<nat>,
                nullLen: bool, imported: Answer, work: Work)
    ensures UseReport(Decrypting, ready, key, input, scheme, hash, room, nullLen, imported, work) == Auth <==>
            && UseCheck(Decrypting, ready, key, input, scheme, hash, room.None?, nullLen, if room.None? then 0 else room.value) == Ok
            && imported == Answer(Success, false)
            && work.answer.ps != Success && work.answer.ps != InsufficientMemory && !work.answer.starved
  {
  }
}
