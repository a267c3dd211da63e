/** The write passes of src/zuc_pkey.c, on the buffers they fill. */
module KeyWriter {
  import opened Bytes
  import opened Options
  import opened Statuses
  import opened Buffers
  import opened X690
  import opened KeyEncoding

  /** `w` has been written at `at`, and nothing else has changed. */
  ghost predicate Wrote(before: bytes, after: bytes, at: nat, w: bytes) {
    && |after| == |before|
    && at + |w| <= |after|
    && forall i :: 0 <= i < |after| ==> after[i] == if at <= i < at + |w| then w[i - at] else before[i]
  }

  lemma WroteThen(a: bytes, b: bytes, c: bytes, at: nat, x: bytes, y: bytes)
    requires Wrote(a, b, at, x) && Wrote(b, c, at + |x|, y)
    ensures Wrote(a, c, at, x + y)
  {
  }

  /** `memcpy` of `v` after the `done` bytes already written at `at`. */
  method Put(p: array<byte>, at: nat, n: nat, v: bytes, ghost start: bytes, ghost done: bytes) returns (m: nat)
    requires Wrote(start, p[..], at, done) && n == |done| && at + n + |v| <= p.Length
    modifies p
    ensures m == n + |v| && Wrote(start, p[..], at, done + v)
  {
    hide Splice;
    ghost var before := p[..];
    SpliceAt(before, at + n, v);
    Store(p, at + n, v);
    WroteThen(start, before, p[..], at, done, v);
    m := n + |v|;
  }

  /** `der_length` at `p + at + n`. */
  method PutLength(p: array<byte>, at: nat, n: nat, len: nat, ghost start: bytes, ghost done: bytes) returns (m: nat)
    requires Wrote(start, p[..], at, done) && n == |done| && at + n + |Octets(len)| <= p.Length
    modifies p
    ensures m == n + |Octets(len)| && Wrote(start, p[..], at, done + Octets(len))
  {
    ghost var before := p[..];
    var q := at + n;
    if len < 0x80 {
      p[q] := len;
      m := n + 1;
    } else if len <= 0xFF {
      p[q], p[q + 1] := 0x81, len;
      m := n + 2;
    } else {
      p[q], p[q + 1], p[q + 2] := 0x82, len / 256 % 256, len % 256;
      m := n + 3;
    }
    assert Wrote(before, p[..], at + n, Octets(len));
    WroteThen(start, before, p[..], at, done, Octets(len));
  }

  /** `tlv_head`: the tag and the length; the content follows. */
  method PutHead(p: array<byte>, at: nat, n: nat, tag: byte, len: nat, ghost start: bytes, ghost done: bytes)
    returns (m: nat)
    requires Wrote(start, p[..], at, done) && n == |done| && at + n + 1 + |Octets(len)| <= p.Length
    modifies p
    ensures m == n + 1 + |Octets(len)| && Wrote(start, p[..], at, done + [tag] + Octets(len))
  {
    m := Put(p, at, n, [tag], start, done);
    m := PutLength(p, at, m, len, start, done + [tag]);
  }

  /** `tlv`: a whole element. */
  method PutTlv(p: array<byte>, at: nat, n: nat, tag: byte, v: bytes, ghost start: bytes, ghost done: bytes)
    returns (m: nat)
    requires Wrote(start, p[..], at, done) && n == |done| && at + n + TlvSize(|v|) <= p.Length
    modifies p
    ensures m == n + TlvSize(|v|) && Wrote(start, p[..], at, done + Tlv(tag, v))
  {
    m := PutHead(p, at, n, tag, |v|, start, done);
    m := Put(p, at, m, v, start, done + [tag] + Octets(|v|));
    assert done + [tag] + Octets(|v|) + v == done + Tlv(tag, v);
  }

  /** The [1] point of `ec_sec1`. */
  method PutPoint(p: array<byte>, at: nat, n: nat, point: bytes, ghost start: bytes, ghost done: bytes)
    returns (m: nat)
    requires Wrote(start, p[..], at, done) && n == |done| && at + n + |PointPart(point)| <= p.Length
    modifies p
    ensures m == n + |PointPart(point)| && Wrote(start, p[..], at, done + PointPart(point))
  {
    hide Octets, Wrote;
    ghost var outer := [0xa1] + Octets(TlvSize(|point| + 1));
    ghost var bits := [TAG_BIT_STRING] + Octets(|point| + 1);
    m := PutHead(p, at, n, 0xa1, TlvSize(|point| + 1), start, done);
    assert done + [0xa1] + Octets(TlvSize(|point| + 1)) == done + outer;
    m := PutHead(p, at, m, TAG_BIT_STRING, |point| + 1, start, done + outer);
    assert done + outer + [TAG_BIT_STRING] + Octets(|point| + 1) == done + outer + bits;
    m := Put(p, at, m, [0], start, done + outer + bits);
    m := Put(p, at, m, point, start, done + outer + bits + [0]);
    PointPieces(done, point);
  }

  lemma PointPieces(done: bytes, point: bytes)
    ensures done + ([0xa1] + Octets(TlvSize(|point| + 1))) + ([TAG_BIT_STRING] + Octets(|point| + 1)) + [0] + point ==
            done + PointPart(point)
  {
    hide Octets;
    assert [TAG_BIT_STRING] + Octets(|point| + 1) + ([0] + point) == Tlv(TAG_BIT_STRING, [0] + point);
    var bit := Tlv(TAG_BIT_STRING, [0] + point);
    assert [0xa1] + Octets(|bit|) + bit == PointPart(point);
  }

  /** `ec_sec1`: with a null buffer the size pass, else the write pass at `at`. The two agree for
      every length, and nothing outside the counted bytes is written. */
  method EcSec1(p: array?<byte>, at: nat, key: EcPrivate) returns (n: nat)
    requires p != null ==> at + |Sec1(key)| <= p.Length
    modifies p
    ensures n == |Sec1(key)|
    ensures p != null ==> Wrote(old(p[..]), p[..], at, Sec1(key))
  {
    var body := 3 + TlvSize(|key.scalar|)
                + (if key.curve.Some? then TlvSize(|key.curve.value|) else 0)
                + TlvSize(TlvSize(|key.point| + 1));
    Sec1Size(key);
    if p == null {
      return TlvSize(body);
    }
    n := WriteSec1(p, at, key, body);
  }

  /** The write pass of `ec_sec1`. */
  method WriteSec1(p: array<byte>, at: nat, key: EcPrivate, body: nat) returns (n: nat)
    requires body == |Sec1Body(key)| && at + |Sec1(key)| <= p.Length
    modifies p
    ensures n == |Sec1(key)| && Wrote(old(p[..]), p[..], at, Sec1(key))
  {
    hide Octets, Wrote, Tlv;
    ghost var start := p[..];
    ghost var head := [] + [TAG_SEQUENCE] + Octets(body);
    Sec1Size(key);
    WroteNothing(start, at);
    n := PutHead(p, at, 0, TAG_SEQUENCE, body, start, []);
    n := Put(p, at, n, VERSION_ONE, start, head);
    ghost var done := head + VERSION_ONE;
    n := PutTlv(p, at, n, TAG_OCTET_STRING, key.scalar, start, done);
    done := done + Tlv(TAG_OCTET_STRING, key.scalar);
    if key.curve.Some? {
      n := PutTlv(p, at, n, 0xa0, key.curve.value, start, done);
    } else {
      assert done + CurvePart(key.curve) == done;
    }
    done := done + CurvePart(key.curve);
    n := PutPoint(p, at, n, key.point, start, done);
    Sec1Pieces(key);
  }

  lemma WroteNothing(s: bytes, at: nat)
    requires at <= |s|
    ensures Wrote(s, s, at, [])
  {
  }

  /** The size pass, summand by summand. */
  lemma Sec1Size(key: EcPrivate)
    ensures |Sec1Body(key)| == 3 + TlvSize(|key.scalar|)
                               + (if key.curve.Some? then TlvSize(|key.curve.value|) else 0)
                               + TlvSize(TlvSize(|key.point| + 1))
  {
  }

  lemma Sec1Pieces(key: EcPrivate)
    ensures [] + [TAG_SEQUENCE] + Octets(|Sec1Body(key)|) + VERSION_ONE + Tlv(TAG_OCTET_STRING, key.scalar)
            + CurvePart(key.curve) + PointPart(key.point) == Sec1(key)
  {
    hide Octets, PointPart, CurvePart;
    assert [] + [TAG_SEQUENCE] == [TAG_SEQUENCE];
  }

  // --- the encoders that allocate ---------------------------------------

  datatype Format = Pkcs1Der | Pkcs1Pem | InfoDer | InfoPem | OtherFormat

  predicate IsPkcs1(f: Format) {
    f == Pkcs1Der || f == Pkcs1Pem
  }

  /** `pkcs8_wrap`; `malloc` is whether its allocation succeeds. */
  method Pkcs8Wrap(pkcs1: bytes, malloc: bool) returns (st: Status, out: array?<byte>)
    ensures st == if |pkcs1| > 0xFFFF - 64 then Internal else if malloc then Ok else Memory
    ensures st == Ok ==> out != null && fresh(out) && out[..] == Pkcs8(Rsa(pkcs1))
    ensures st != Ok ==> out == null
  {
    hide Octets;
    if |pkcs1| > 0xFFFF - 64 {
      return Internal, null;
    }
    var octetLen, seqLen := new byte[3], new byte[3];
    WroteNothing(octetLen[..], 0);
    var ol := PutLength(octetLen, 0, 0, |pkcs1|, octetLen[..], []);
    var body := |RSA_HEAD| + 1 + ol + |pkcs1|;
    WroteNothing(seqLen[..], 0);
    var sl := PutLength(seqLen, 0, 0, body, seqLen[..], []);
    var total := 1 + sl + body;
    if !malloc {
      return Memory, null;
    }
    assert octetLen[..ol] == Octets(|pkcs1|) && seqLen[..sl] == Octets(body);
    var p := FillWrapped(pkcs1, octetLen[..ol], seqLen[..sl], body, total);
    return Ok, p;
  }

  /** The copies of `pkcs8_wrap` into its exact buffer. */
  method FillWrapped(pkcs1: bytes, octetLen: bytes, seqLen: bytes, body: nat, total: nat) returns (p: array<byte>)
    requires octetLen == Octets(|pkcs1|) && seqLen == Octets(body)
    requires body == |RSA_HEAD| + 1 + |octetLen| + |pkcs1| && total == 1 + |seqLen| + body
    ensures fresh(p) && p[..] == Pkcs8(Rsa(pkcs1))
  {
    hide Octets, Wrote;
    p := new byte[total];
    ghost var start := p[..];
    WroteNothing(start, 0);
    var n := Put(p, 0, 0, [TAG_SEQUENCE], start, []);
    ghost var done := [] + [TAG_SEQUENCE];
    n := Put(p, 0, n, seqLen, start, done);
    done := done + seqLen;
    n := Put(p, 0, n, RSA_HEAD, start, done);
    done := done + RSA_HEAD;
    n := Put(p, 0, n, [TAG_OCTET_STRING], start, done);
    done := done + [TAG_OCTET_STRING];
    n := Put(p, 0, n, octetLen, start, done);
    done := done + octetLen;
    n := Put(p, 0, n, pkcs1, start, done);
    WroteAll(start, p[..], done + pkcs1);
    RsaPieces(pkcs1, body);
  }

  /** A buffer filled from its start to its end holds exactly what was written. */
  lemma WroteAll(start: bytes, after: bytes, w: bytes)
    requires Wrote(start, after, 0, w) && |w| == |start|
    ensures after == w
  {
  }

  lemma RsaPieces(pkcs1: bytes, body: nat)
    requires body == |RSA_HEAD| + 1 + |Octets(|pkcs1|)| + |pkcs1|
    ensures [] + [TAG_SEQUENCE] + Octets(body) + RSA_HEAD + [TAG_OCTET_STRING] + Octets(|pkcs1|) + pkcs1 ==
            Pkcs8(Rsa(pkcs1))
  {
    RsaHead();
    hide Octets;
    var octets := Tlv(TAG_OCTET_STRING, pkcs1);
    assert RSA_HEAD + octets == Pkcs8Body(Rsa(pkcs1));
    assert [] + [TAG_SEQUENCE] == [TAG_SEQUENCE];
  }

  lemma RsaHead()
    ensures VERSION_ZERO + Tlv(TAG_SEQUENCE, RSA_ALGORITHM) == RSA_HEAD
  {
    assert Octets(13) == [0x0d];
  }

  /** The private half of `ec_encode`, for a key on a NIST curve or an X25519 key. `pointStatus` is
      how computing the public point went and `malloc` whether the allocation succeeds. Each
      encoding fills exactly the buffer that was sized for it. */
  method EcEncode(key: PrivateKey, format: Format, pointStatus: Status, malloc: bool)
    returns (st: Status, der: array?<byte>)
    requires !key.Rsa?
    ensures format == OtherFormat ==> st == InvalidArgument
    ensures key.X25519? && (format == Pkcs1Der || format == Pkcs1Pem) ==> st == Unsupported
    ensures key.X25519? && (format == InfoDer || format == InfoPem) ==> st == if malloc then Ok else Memory
    ensures key.Nist? && format != OtherFormat ==>
              st == if pointStatus != Ok then pointStatus else if malloc then Ok else Memory
    ensures st == Ok ==> der != null && fresh(der)
    ensures st == Ok && (format == InfoDer || format == InfoPem) ==> der[..] == Pkcs8(key)
    ensures st == Ok && (format == Pkcs1Der || format == Pkcs1Pem) ==>
              key.Nist? && der[..] == Sec1(EcPrivate(key.scalar, Some(CurveOid(key.curve)), key.point))
    ensures st != Ok ==> der == null
  {
    if format == OtherFormat {
      return InvalidArgument, null;
    }
    if key.X25519? {
      if IsPkcs1(format) {
        return Unsupported, null;
      }
      if !malloc {
        return Memory, null;
      }
      var p := FillX25519(key);
      return Ok, p;
    }
    if pointStatus != Ok {
      return pointStatus, null;
    }
    if !malloc {
      return Memory, null;
    }
    if IsPkcs1(format) {
      var sec1 := EcPrivate(key.scalar, Some(CurveOid(key.curve)), key.point);
      var total := EcSec1(null, 0, sec1);
      var p := new byte[total];
      ghost var start := p[..];
      var n := EcSec1(p, 0, sec1);
      WroteAll(start, p[..], Sec1(sec1));
      return Ok, p;
    }
    var p := FillNist(key);
    return Ok, p;
  }

  method FillX25519(key: PrivateKey) returns (p: array<byte>)
    requires key.X25519?
    ensures fresh(p) && p[..] == Pkcs8(key)
  {
    hide Octets, Wrote, Tlv;
    var alg := TlvSize(|OID_X25519|);
    var inner := TlvSize(|key.k|);
    var body := 3 + alg + TlvSize(inner);
    p := new byte[TlvSize(body)];
    ghost var start := p[..];
    WroteNothing(start, 0);
    var n := PutHead(p, 0, 0, TAG_SEQUENCE, body, start, []);
    ghost var done := [] + [TAG_SEQUENCE] + Octets(body);
    n := Put(p, 0, n, VERSION_ZERO, start, done);
    done := done + VERSION_ZERO;
    n := PutTlv(p, 0, n, TAG_SEQUENCE, OID_X25519, start, done);
    done := done + Tlv(TAG_SEQUENCE, OID_X25519);
    n := PutHead(p, 0, n, TAG_OCTET_STRING, inner, start, done);
    done := done + [TAG_OCTET_STRING] + Octets(inner);
    n := PutTlv(p, 0, n, TAG_OCTET_STRING, key.k, start, done);
    WroteAll(start, p[..], done + Tlv(TAG_OCTET_STRING, key.k));
    Pkcs8Pieces(key, Tlv(TAG_SEQUENCE, OID_X25519), Tlv(TAG_OCTET_STRING, key.k));
  }

  method FillNist(key: PrivateKey) returns (p: array<byte>)
    requires key.Nist?
    ensures fresh(p) && p[..] == Pkcs8(key)
  {
    hide Octets, Wrote, Tlv, Sec1;
    var sec1Key := EcPrivate(key.scalar, None, key.point);
    var oid := CurveOid(key.curve);
    var sec1 := EcSec1(null, 0, sec1Key);
    var alg := |OID_EC_PUBLIC_KEY| + |oid|;
    var body := 3 + TlvSize(alg) + TlvSize(sec1);
    p := new byte[TlvSize(body)];
    ghost var start := p[..];
    WroteNothing(start, 0);
    var n := PutHead(p, 0, 0, TAG_SEQUENCE, body, start, []);
    ghost var done := [] + [TAG_SEQUENCE] + Octets(body);
    n := Put(p, 0, n, VERSION_ZERO, start, done);
    done := done + VERSION_ZERO;
    ghost var before := done;
    n := PutHead(p, 0, n, TAG_SEQUENCE, alg, start, done);
    done := done + [TAG_SEQUENCE] + Octets(alg);
    n := Put(p, 0, n, OID_EC_PUBLIC_KEY, start, done);
    n := Put(p, 0, n, oid, start, done + OID_EC_PUBLIC_KEY);
    NistAlgorithm(before, key.curve);
    done := before + Tlv(TAG_SEQUENCE, OID_EC_PUBLIC_KEY + oid);
    n := PutHead(p, 0, n, TAG_OCTET_STRING, sec1, start, done);
    done := done + [TAG_OCTET_STRING] + Octets(sec1);
    ghost var mid := p[..];
    var m := EcSec1(p, n, sec1Key);
    WroteThen(start, mid, p[..], 0, done, Sec1(sec1Key));
    WroteAll(start, p[..], done + Sec1(sec1Key));
    Pkcs8Pieces(key, Tlv(TAG_SEQUENCE, OID_EC_PUBLIC_KEY + oid), Sec1(sec1Key));
  }

  lemma NistAlgorithm(before: bytes, c: Curve)
    ensures before + [TAG_SEQUENCE] + Octets(|OID_EC_PUBLIC_KEY| + |CurveOid(c)|) + OID_EC_PUBLIC_KEY + CurveOid(c) ==
            before + Tlv(TAG_SEQUENCE, OID_EC_PUBLIC_KEY + CurveOid(c))
  {
    hide Octets, CurveOid;
    var oid := CurveOid(c);
    assert |OID_EC_PUBLIC_KEY + oid| == |OID_EC_PUBLIC_KEY| + |oid|;
  }

  lemma Pkcs8Pieces(key: PrivateKey, alg: bytes, inner: bytes)
    requires alg == Tlv(TAG_SEQUENCE, Algorithm(key)) && inner == Inner(key)
    ensures [] + [TAG_SEQUENCE] + Octets(3 + |alg| + TlvSize(|inner|)) + VERSION_ZERO + alg
            + [TAG_OCTET_STRING] + Octets(|inner|) + inner == Pkcs8(key)
  {
    hide Octets, Inner, Algorithm;
    var octets := Tlv(TAG_OCTET_STRING, inner);
    assert |Pkcs8Body(key)| == 3 + |alg| + TlvSize(|inner|);
    assert [] + [TAG_SEQUENCE] == [TAG_SEQUENCE];
  }
}
