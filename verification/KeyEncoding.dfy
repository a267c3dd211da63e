/** The private-key encoders of src/zuc_pkey.c: SEC1 (section 3 of RFC 5915), PKCS#8 (section 5 of
    RFC 5208) and X25519 (section 7 of RFC 8410). Each is sized in one pass and written in a second
    one through an advancing index. */
module KeyEncoding {
  import opened Bytes
  import opened Options
  import opened X690

  /** `der_length`: past 0xFFFF the two octets keep only the low 16 bits. */
  function Octets(n: nat): (r: bytes)
    ensures 1 + |r| + n == TlvSize(n)
  {
    if n < 0x80 then [n]
    else if n <= 0xFF then [0x81, n]
    else [0x82, n / 256 % 256, n % 256]
  }

  /** `tlv_size`: the size pass. */
  function TlvSize(n: nat): nat {
    1 + (if n < 0x80 then 1 else if n <= 0xFF then 2 else 3) + n
  }

  function Tlv(tag: byte, content: bytes): (r: bytes)
    ensures |r| == TlvSize(|content|)
  {
    [tag] + Octets(|content|) + content
  }

  // --- one element, read back -------------------------------------------

  lemma OctetsRead(n: nat, tail: bytes)
    requires n <= 0xFFFF
    ensures ReadLength(Octets(n) + tail) == Some(Length(n, |Octets(n)|))
  {
    var s := Octets(n) + tail;
    if 0x80 <= n <= 0xFF {
      assert s[1..2] == [n];
      ValueShort(n, 0);
    } else if n > 0xFF {
      var hi, lo := n / 256, n % 256;
      assert s[1..3] == [hi, lo];
      ValueShort(hi, lo);
    }
  }

  lemma TlvReads(tag: byte, content: bytes, tail: bytes)
    requires |content| <= 0xFFFF
    ensures ReadElement(Tlv(tag, content) + tail) == Some(Element(tag, content, tail))
  {
    hide ReadLength, Octets;
    var l := Octets(|content|);
    var s := Tlv(tag, content) + tail;
    assert s[1..] == l + (content + tail);
    OctetsRead(|content|, content + tail);
    assert s[1 + |l|..1 + |l| + |content|] == content;
    assert s[1 + |l| + |content|..] == tail;
  }

  /** An element decodes exactly when its content fits the two length octets. */
  lemma TlvIff(tag: byte, content: bytes)
    ensures ReadOnly(Tlv(tag, content), tag) == if |content| <= 0xFFFF then Some(content) else None
  {
    if |content| <= 0xFFFF {
      TlvReads(tag, content, []);
      assert Tlv(tag, content) + [] == Tlv(tag, content);
    } else {
      var n := |content|;
      var s := Tlv(tag, content);
      var hi, lo: byte := n / 256 % 256, n % 256;
      var l: bytes := [0x82, hi, lo];
      assert s[1..] == l + content;
      assert (l + content)[1..3] == [hi, lo];
      ValueShort(hi, lo);
      assert hi * 256 + lo < n;
    }
  }

  // --- SEC1 -------------------------------------------------------------

  const VERSION_ONE: bytes := [0x02, 0x01, 0x01]
  const VERSION_ZERO: bytes := [0x02, 0x01, 0x00]

  datatype EcPrivate = EcPrivate(scalar: bytes, curve: Option<bytes>, point: bytes)

  function CurvePart(curve: Option<bytes>): bytes {
    if curve.Some? then Tlv(0xa0, curve.value) else []
  }

  function PointPart(point: bytes): bytes {
    Tlv(0xa1, Tlv(TAG_BIT_STRING, [0] + point))
  }

  function Sec1Body(k: EcPrivate): bytes {
    VERSION_ONE + Tlv(TAG_OCTET_STRING, k.scalar) + CurvePart(k.curve) + PointPart(k.point)
  }

  function Sec1(k: EcPrivate): bytes {
    Tlv(TAG_SEQUENCE, Sec1Body(k))
  }

  /** A strict reader of ECPrivateKey. */
  function ReadSec1(s: bytes): Option<EcPrivate> {
    match ReadOnly(s, TAG_SEQUENCE)
    case None => None
    case Some(body) => ReadSec1Body(body)
  }

  function ReadSec1Body(body: bytes): Option<EcPrivate> {
    match ReadElement(body)
    case Some(Element(0x02, version, afterVersion)) =>
      if version != [1] then None
      else (match ReadElement(afterVersion)
            case Some(Element(0x04, scalar, afterScalar)) => ReadParts(scalar, afterScalar)
            case _ => None)
    case _ => None
  }

  /** The optional [0] curve and the [1] point. */
  function ReadParts(scalar: bytes, s: bytes): Option<EcPrivate> {
    match ReadElement(s)
    case Some(Element(0xa0, oid, afterCurve)) => ReadPoint(scalar, Some(oid), afterCurve)
    case _ => ReadPoint(scalar, None, s)
  }

  function ReadPoint(scalar: bytes, curve: Option<bytes>, s: bytes): Option<EcPrivate> {
    match ReadOnly(s, 0xa1)
    case None => None
    case Some(wrapped) =>
      match ReadOnly(wrapped, 0x03)
      case None => None
      case Some(bits) => if bits == [] || bits[0] != 0 then None else Some(EcPrivate(scalar, curve, bits[1..]))
  }

  lemma PointReads(scalar: bytes, curve: Option<bytes>, point: bytes)
    requires |PointPart(point)| <= 0xFFFF
    ensures ReadPoint(scalar, curve, PointPart(point)) == Some(EcPrivate(scalar, curve, point))
  {
    hide ReadOnly, Octets;
    TlvIff(0xa1, Tlv(TAG_BIT_STRING, [0] + point));
    TlvIff(TAG_BIT_STRING, [0] + point);
    assert ([0] + point)[1..] == point;
  }

  lemma PartsRead(k: EcPrivate)
    requires |CurvePart(k.curve)| + |PointPart(k.point)| <= 0xFFFF
    ensures ReadParts(k.scalar, CurvePart(k.curve) + PointPart(k.point)) == Some(k)
  {
    hide ReadElement, ReadPoint, Octets;
    PointReads(k.scalar, k.curve, k.point);
    if k.curve.Some? {
      TlvReads(0xa0, k.curve.value, PointPart(k.point));
    } else {
      assert CurvePart(k.curve) + PointPart(k.point) == PointPart(k.point);
      assert PointPart(k.point) + [] == PointPart(k.point);
      TlvReads(0xa1, Tlv(TAG_BIT_STRING, [0] + k.point), []);
    }
  }

  lemma BodyReads(k: EcPrivate)
    requires |Sec1Body(k)| <= 0xFFFF
    ensures ReadSec1Body(Sec1Body(k)) == Some(k)
  {
    hide ReadElement, ReadParts, Tlv, PointPart, CurvePart;
    var parts := CurvePart(k.curve) + PointPart(k.point);
    var afterVersion := Tlv(TAG_OCTET_STRING, k.scalar) + parts;
    assert Sec1Body(k) == VERSION_ONE + afterVersion;
    VersionReads(1, afterVersion);
    TlvReads(TAG_OCTET_STRING, k.scalar, parts);
    PartsRead(k);
  }

  lemma VersionReads(v: byte, tail: bytes)
    ensures ReadElement([0x02, 0x01, v] + tail) == Some(Element(TAG_INTEGER, [v], tail))
  {
    assert Tlv(TAG_INTEGER, [v]) == [0x02, 0x01, v];
    TlvReads(TAG_INTEGER, [v], tail);
  }

  /** SEC1 decodes to the scalar, the optional curve and the point exactly when its body fits the
      two length octets; a longer one is never read as some other key. */
  lemma Sec1Iff(k: EcPrivate)
    ensures ReadSec1(Sec1(k)) == if |Sec1Body(k)| <= 0xFFFF then Some(k) else None
  {
    hide ReadSec1Body, Sec1Body, Tlv;
    TlvIff(TAG_SEQUENCE, Sec1Body(k));
    if |Sec1Body(k)| <= 0xFFFF {
      BodyReads(k);
    }
  }

  /** The length octets that are written spell the low 16 bits, whatever their number. */
  lemma OctetsSpell(n: nat)
    ensures n < 0x80 ==> Octets(n) == [n]
    ensures 0x80 <= n < 0x100 ==> Octets(n) == [0x81, n]
    ensures n >= 0x100 ==> |Octets(n)| == 3 && Octets(n)[0] == 0x82 &&
                           var high: nat, low: nat := Octets(n)[1], Octets(n)[2]; 256 * high + low == n % 0x1_0000
  {
  }

  /** SEC1 byte by byte (section 3 of RFC 5915): version 1, the scalar, the curve in [0] if there is one, and
      in [1] a BIT STRING with no unused bits that holds the point. */
  lemma Sec1Shape(k: EcPrivate)
    ensures var bits := [0x03] + Octets(|k.point| + 1) + [0x00] + k.point;
            var curve := if k.curve.None? then [] else [0xa0] + Octets(|k.curve.value|) + k.curve.value;
            var body := [0x02, 0x01, 0x01] + [0x04] + Octets(|k.scalar|) + k.scalar + curve + [0xa1] + Octets(|bits|) + bits;
            Sec1(k) == [0x30] + Octets(|body|) + body
  {
    hide Octets;
    var bits := [0x03] + Octets(|k.point| + 1) + [0x00] + k.point;
    assert Tlv(TAG_BIT_STRING, [0] + k.point) == bits;
    assert PointPart(k.point) == [0xa1] + Octets(|bits|) + bits;
    var start := [0x02, 0x01, 0x01] + [0x04] + Octets(|k.scalar|) + k.scalar;
    assert VERSION_ONE + Tlv(TAG_OCTET_STRING, k.scalar) == start;
    assert Sec1Body(k) == start + CurvePart(k.curve) + [0xa1] + Octets(|bits|) + bits;
  }

  // --- PKCS#8 -----------------------------------------------------------

  const OID_EC_PUBLIC_KEY: bytes := [0x06, 0x07, 0x2a, 0x86, 0x48, 0xce, 0x3d, 0x02, 0x01]
  const OID_P256: bytes := [0x06, 0x08, 0x2a, 0x86, 0x48, 0xce, 0x3d, 0x03, 0x01, 0x07]
  const OID_P384: bytes := [0x06, 0x05, 0x2b, 0x81, 0x04, 0x00, 0x22]
  const OID_P521: bytes := [0x06, 0x05, 0x2b, 0x81, 0x04, 0x00, 0x23]
  const OID_X25519: bytes := [0x06, 0x03, 0x2b, 0x65, 0x6e]
  /** rsaEncryption and its NULL parameters. */
  const RSA_ALGORITHM: bytes :=
    [0x06, 0x09, 0x2a, 0x86, 0x48, 0x86, 0xf7, 0x0d, 0x01, 0x01, 0x01, 0x05, 0x00]
  /** The constant the RSA wrapper copies: version 0 and the algorithm identifier. */
  const RSA_HEAD: bytes :=
    [0x02, 0x01, 0x00, 0x30, 0x0d, 0x06, 0x09, 0x2a, 0x86, 0x48, 0x86, 0xf7, 0x0d, 0x01, 0x01, 0x01, 0x05, 0x00]

  /** The constants name id-ecPublicKey and the curves of section 2.1.1 of RFC 5480, id-X25519 of
      section 3 of RFC 8410, and rsaEncryption of appendix C of RFC 8017 with NULL after it. */
  lemma OidsNameTheKeys()
    ensures OID_EC_PUBLIC_KEY == Oid(Base128(40 * 1 + 2) + Base128(840) + Base128(10045) + Base128(2) + Base128(1))
    ensures OID_P256 == Oid(Base128(40 * 1 + 2) + Base128(840) + Base128(10045) + Base128(3) + Base128(1) + Base128(7))
    ensures OID_P384 == Oid(Base128(40 * 1 + 3) + Base128(132) + Base128(0) + Base128(34))
    ensures OID_P521 == Oid(Base128(40 * 1 + 3) + Base128(132) + Base128(0) + Base128(35))
    ensures OID_X25519 == Oid(Base128(40 * 1 + 3) + Base128(101) + Base128(110))
    ensures RSA_ALGORITHM == Oid(Base128(40 * 1 + 2) + Base128(840) + Base128(113549) + Base128(1) + Base128(1) + Base128(1))
                             + [0x05, 0x00]
  {
  }

  datatype Curve = P256 | P384 | P521

  function CurveOid(c: Curve): bytes {
    match c
    case P256 => OID_P256
    case P384 => OID_P384
    case P521 => OID_P521
  }

  datatype PrivateKey =
    | Rsa(pkcs1: bytes)
    | Nist(curve: Curve, scalar: bytes, point: bytes)
    | X25519(k: bytes)

  function Algorithm(key: PrivateKey): bytes {
    match key
    case Rsa(_) => RSA_ALGORITHM
    case Nist(c, _, _) => OID_EC_PUBLIC_KEY + CurveOid(c)
    case X25519(_) => OID_X25519
  }

  /** The contents of the privateKey OCTET STRING. */
  function Inner(key: PrivateKey): bytes {
    match key
    case Rsa(pkcs1) => pkcs1
    case Nist(_, scalar, point) => Sec1(EcPrivate(scalar, None, point))
    case X25519(k) => Tlv(TAG_OCTET_STRING, k)
  }

  function Pkcs8Body(key: PrivateKey): bytes {
    VERSION_ZERO + Tlv(TAG_SEQUENCE, Algorithm(key)) + Tlv(TAG_OCTET_STRING, Inner(key))
  }

  function Pkcs8(key: PrivateKey): bytes {
    Tlv(TAG_SEQUENCE, Pkcs8Body(key))
  }

  /** A strict reader of PrivateKeyInfo for the three kinds of key. */
  function ReadPkcs8(s: bytes): Option<PrivateKey> {
    match ReadOnly(s, TAG_SEQUENCE)
    case None => None
    case Some(body) => ReadPkcs8Body(body)
  }

  function ReadPkcs8Body(body: bytes): Option<PrivateKey> {
    match ReadElement(body)
    case Some(Element(0x02, version, afterVersion)) =>
      if version != [0] then None
      else (match ReadElement(afterVersion)
            case Some(Element(0x30, algorithm, afterAlgorithm)) =>
              (match ReadOnly(afterAlgorithm, TAG_OCTET_STRING)
               case None => None
               case Some(inner) => ReadInner(algorithm, inner))
            case _ => None)
    case _ => None
  }

  function ReadInner(algorithm: bytes, inner: bytes): Option<PrivateKey> {
    if algorithm == RSA_ALGORITHM then Some(Rsa(inner))
    else if algorithm == OID_X25519 then
      match ReadOnly(inner, TAG_OCTET_STRING)
      case None => None
      case Some(k) => Some(X25519(k))
    else if algorithm == OID_EC_PUBLIC_KEY + OID_P256 then ReadNist(P256, inner)
    else if algorithm == OID_EC_PUBLIC_KEY + OID_P384 then ReadNist(P384, inner)
    else if algorithm == OID_EC_PUBLIC_KEY + OID_P521 then ReadNist(P521, inner)
    else None
  }

  /** The curve is in the algorithm identifier, so SEC1 must not repeat it. */
  function ReadNist(curve: Curve, inner: bytes): Option<PrivateKey> {
    match ReadSec1(inner)
    case Some(EcPrivate(scalar, None, point)) => Some(Nist(curve, scalar, point))
    case _ => None
  }

  /** The algorithm of each kind of key, the curve or NULL after it. */
  lemma AlgorithmShape(a: bytes, b: bytes)
    ensures Algorithm(Rsa(a)) == [0x06, 0x09, 0x2a, 0x86, 0x48, 0x86, 0xf7, 0x0d, 0x01, 0x01, 0x01, 0x05, 0x00]
    ensures Algorithm(Nist(P256, a, b)) == OID_EC_PUBLIC_KEY + OID_P256
    ensures Algorithm(Nist(P384, a, b)) == OID_EC_PUBLIC_KEY + OID_P384
    ensures Algorithm(Nist(P521, a, b)) == OID_EC_PUBLIC_KEY + OID_P521
    ensures Algorithm(X25519(a)) == OID_X25519
  {
  }

  /** PKCS#8 byte by byte: version 0, the algorithm, and in an OCTET STRING the RSA key as it is, SEC1 without
      the curve, or another OCTET STRING (section 5 of RFC 5208, section 7 of RFC 8410). */
  lemma Pkcs8Shape(key: PrivateKey)
    ensures var algorithm := Algorithm(key);
            var inner := match key
              case Rsa(pkcs1) => pkcs1
              case Nist(_, scalar, point) => Sec1(EcPrivate(scalar, None, point))
              case X25519(k) => [0x04] + Octets(|k|) + k;
            var body := [0x02, 0x01, 0x00] + ([0x30] + Octets(|algorithm|) + algorithm) + [0x04] + Octets(|inner|) + inner;
            Pkcs8(key) == [0x30] + Octets(|body|) + body
  {
    hide Octets, Sec1, Algorithm;
    ShapeOfBody(key);
  }

  lemma ShapeOfBody(key: PrivateKey)
    ensures Pkcs8Body(key) == [0x02, 0x01, 0x00] + ([0x30] + Octets(|Algorithm(key)|) + Algorithm(key))
                              + [0x04] + Octets(|Inner(key)|) + Inner(key)
  {
    hide Octets, Algorithm, Inner;
    assert VERSION_ZERO + Tlv(TAG_SEQUENCE, Algorithm(key)) == [0x02, 0x01, 0x00] + ([0x30] + Octets(|Algorithm(key)|) + Algorithm(key));
    assert Tlv(TAG_OCTET_STRING, Inner(key)) == [0x04] + Octets(|Inner(key)|) + Inner(key);
  }

  lemma AlgorithmsDiffer(c: Curve)
    ensures OID_EC_PUBLIC_KEY + CurveOid(c) != RSA_ALGORITHM
    ensures OID_EC_PUBLIC_KEY + CurveOid(c) != OID_X25519
    ensures forall d :: OID_EC_PUBLIC_KEY + CurveOid(c) == OID_EC_PUBLIC_KEY + CurveOid(d) ==> c == d
  {
    assert (OID_EC_PUBLIC_KEY + CurveOid(c))[1] == 0x07;
    assert (OID_EC_PUBLIC_KEY + OID_P384)[15] == 0x22;
    assert (OID_EC_PUBLIC_KEY + OID_P521)[15] == 0x23;
  }

  lemma InnerReads(key: PrivateKey)
    requires |Inner(key)| <= 0xFFFF
    ensures ReadInner(Algorithm(key), Inner(key)) == Some(key)
  {
    hide ReadOnly, ReadSec1, Tlv, Sec1Body;
    match key {
      case Rsa(_) =>
      case X25519(k) =>
        assert OID_X25519[1] != RSA_ALGORITHM[1];
        TlvIff(TAG_OCTET_STRING, k);
      case Nist(c, scalar, point) =>
        AlgorithmsDiffer(c);
        AlgorithmsDiffer(P256);
        AlgorithmsDiffer(P384);
        Sec1Iff(EcPrivate(scalar, None, point));
    }
  }

  lemma Pkcs8BodyReads(key: PrivateKey)
    requires |Pkcs8Body(key)| <= 0xFFFF
    ensures ReadPkcs8Body(Pkcs8Body(key)) == Some(key)
  {
    hide ReadElement, ReadOnly, ReadInner, Tlv, Algorithm, Inner;
    var octets := Tlv(TAG_OCTET_STRING, Inner(key));
    var afterVersion := Tlv(TAG_SEQUENCE, Algorithm(key)) + octets;
    assert Pkcs8Body(key) == VERSION_ZERO + afterVersion;
    VersionReads(0, afterVersion);
    TlvReads(TAG_SEQUENCE, Algorithm(key), octets);
    TlvIff(TAG_OCTET_STRING, Inner(key));
    InnerReads(key);
  }

  /** PKCS#8 decodes to the key type and the private material exactly when its body fits. */
  lemma Pkcs8Iff(key: PrivateKey)
    ensures ReadPkcs8(Pkcs8(key)) == if |Pkcs8Body(key)| <= 0xFFFF then Some(key) else None
  {
    hide ReadPkcs8Body, Pkcs8Body, Tlv;
    TlvIff(TAG_SEQUENCE, Pkcs8Body(key));
    if |Pkcs8Body(key)| <= 0xFFFF {
      Pkcs8BodyReads(key);
    }
  }

  /** The three encoders never produce the same bytes for two different keys. */
  lemma Pkcs8Injective(a: PrivateKey, b: PrivateKey)
    requires |Pkcs8Body(a)| <= 0xFFFF && |Pkcs8Body(b)| <= 0xFFFF
    requires Pkcs8(a) == Pkcs8(b)
    ensures a == b
  {
    hide Pkcs8, Pkcs8Body;
    Pkcs8Iff(a);
    Pkcs8Iff(b);
  }

  // --- past the two length octets ---------------------------------------

  /** Elements of any length differ when their contents do: the length octets may lie, but there are as
      many bytes as there are. */
  lemma TlvInjective(tag: byte, c: bytes, d: bytes)
    requires Tlv(tag, c) == Tlv(tag, d)
    ensures c == d
  {
    hide Octets;
    assert TlvSize(|c|) == TlvSize(|d|);
    var s := Tlv(tag, c);
    assert s[|s| - |c|..] == c;
    assert s[|s| - |d|..] == d;
  }

  lemma AlgorithmSize(key: PrivateKey)
    ensures |Algorithm(key)| < 0x80
  {
  }

  lemma BodyStarts(key: PrivateKey)
    ensures var body, n := Pkcs8Body(key), |Algorithm(key)|;
            && n < 0x80 && |body| >= 5 + n && body[4] == n && body[5..5 + n] == Algorithm(key)
            && body[5 + n..] == Tlv(TAG_OCTET_STRING, Inner(key))
  {
    hide Algorithm, Inner;
    AlgorithmSize(key);
    var n, octets := |Algorithm(key)|, Tlv(TAG_OCTET_STRING, Inner(key));
    var head := VERSION_ZERO + [TAG_SEQUENCE, n];
    assert Pkcs8Body(key) == head + Algorithm(key) + octets;
  }

  /** For keys of any size: two keys have the same encoding only if they are the same key, or two keys on
      one curve whose SEC1 forms coincide. */
  lemma Pkcs8Equal(a: PrivateKey, b: PrivateKey)
    requires Pkcs8(a) == Pkcs8(b)
    ensures || a == b
            || (a.Nist? && b.Nist? && a.curve == b.curve &&
                Sec1(EcPrivate(a.scalar, None, a.point)) == Sec1(EcPrivate(b.scalar, None, b.point)))
  {
    hide Pkcs8Body, Tlv, Octets, Sec1;
    TlvInjective(TAG_SEQUENCE, Pkcs8Body(a), Pkcs8Body(b));
    BodyStarts(a);
    BodyStarts(b);
    TlvInjective(TAG_OCTET_STRING, Inner(a), Inner(b));
    SameKind(a, b);
    if a.X25519? {
      TlvInjective(TAG_OCTET_STRING, a.k, b.k);
    }
  }

  lemma SameKind(a: PrivateKey, b: PrivateKey)
    requires Algorithm(a) == Algorithm(b)
    ensures (a.Rsa? <==> b.Rsa?) && (a.X25519? <==> b.X25519?) && (a.Nist? ==> b.Nist? && a.curve == b.curve)
  {
    if a.Nist? {
      AlgorithmsDiffer(a.curve);
    }
    if b.Nist? {
      AlgorithmsDiffer(b.curve);
    }
    assert OID_X25519[1] != RSA_ALGORITHM[1];
  }

  /** A point that ends in the encoding of an empty point, and a scalar that goes on into it: the lengths
      256 and 256 + 0x10000 have the same two octets. */
  function LongPoint(): bytes {
    Zeros(65527) + PointPart([])
  }

  function LongScalar(): bytes {
    LongPointPart();
    Zeros(256) + PointPart(LongPoint())[..0x1_0000]
  }

  lemma LongPointPart()
    ensures |PointPart(LongPoint())| == 0x1_0005 && |PointPart([])| == 5
    ensures PointPart(LongPoint()) == PointPart(LongPoint())[..0x1_0000] + PointPart([])
  {
    hide Octets;
    var p, e := LongPoint(), PointPart([]);
    assert |e| == 5;
    var whole := PointPart(p);
    var head := [0xa1] + Octets(|Tlv(TAG_BIT_STRING, [0] + p)|) + [TAG_BIT_STRING] + Octets(|[0] + p|) + [0];
    assert whole == head + p;
    assert whole == (head + Zeros(65527)) + e;
    assert whole[..0x1_0000] == head + Zeros(65527);
  }

  /** Past the two length octets two keys of one curve can have the same encoding. */
  lemma Pkcs8Collides(c: Curve)
    ensures var a, b := Nist(c, Zeros(256), LongPoint()), Nist(c, LongScalar(), []);
            a != b && Pkcs8(a) == Pkcs8(b)
  {
    hide PointPart, LongPoint;
    var a, b := EcPrivate(Zeros(256), None, LongPoint()), EcPrivate(LongScalar(), None, []);
    LongPointPart();
    LongScalarIs();
    var part := PointPart(LongPoint())[..0x1_0000];
    assert Octets(256) == Octets(256 + 0x1_0000) == [0x82, 1, 0];
    var start := VERSION_ONE + [TAG_OCTET_STRING, 0x82, 1, 0] + Zeros(256);
    assert Sec1Body(a) == start + PointPart(LongPoint()) by {
      assert CurvePart(None) == [];
      assert Tlv(TAG_OCTET_STRING, Zeros(256)) == [TAG_OCTET_STRING, 0x82, 1, 0] + Zeros(256);
    }
    assert Sec1Body(b) == start + part + PointPart([]) by {
      assert Tlv(TAG_OCTET_STRING, LongScalar()) == [TAG_OCTET_STRING, 0x82, 1, 0] + Zeros(256) + part;
    }
    assert Sec1Body(a) == Sec1Body(b);
  }

  lemma LongScalarIs()
    ensures LongScalar() == Zeros(256) + PointPart(LongPoint())[..0x1_0000] && |LongScalar()| == 256 + 0x1_0000
  {
    LongPointPart();
  }

  /** The bound `pkcs8_wrap` checks, and the sizes of the curves, keep every length in range. */
  lemma LengthsInRange(key: PrivateKey)
    requires key.Rsa? ==> |key.pkcs1| <= 0xFFFF - 64
    requires key.Nist? ==> |key.scalar| <= 66 && |key.point| <= 133
    requires key.X25519? ==> |key.k| <= 32
    ensures |Pkcs8Body(key)| <= 0xFFFF
  {
  }
}
