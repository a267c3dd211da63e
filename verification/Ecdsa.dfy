/** ECDSA signatures in DER (R/ec.R): the writer, the lax parser, and the conversion to the fixed
    width r || s the backend takes. */
module Ecdsa {
  import opened Bytes
  import opened Options
  import opened X690
  import opened DerIntegers

  datatype Signature = Signature(r: bytes, s: bytes)

  /** `fixed_width`: the unsigned integer x in exactly n bytes; None is its refusal. */
  function FixedWidth(x: bytes, n: nat): Option<bytes> {
    var s := Strip(x);
    if |s| > n then None else Some(Zeros(n - |s|) + s)
  }

  function EcdsaWrite(r: bytes, s: bytes): bytes {
    DerSequence([DerInteger(r), DerInteger(s)])
  }

  /** `crypt_ecdsa_parse`; None is its condition. */
  function EcdsaParse(sig: bytes, limit: nat): Option<Signature> {
    match Integers(sig, limit)
    case None => None
    case Some(v) =>
      if |v| != 2 || sig == [] || sig[0] != TAG_SEQUENCE then None else Some(Signature(v[0], v[1]))
  }

  /** `ecdsa_raw`; None is R's NULL. */
  function EcdsaRaw(sig: bytes, n: nat, limit: nat): Option<bytes> {
    match Integers(sig, limit)
    case None => None
    case Some(v) =>
      if |v| != 2 || sig == [] || sig[0] != TAG_SEQUENCE || |v[0]| > n || |v[1]| > n then None
      else if EcdsaWrite(v[0], v[1]) != sig then None
      else Some(Zeros(n - |v[0]|) + v[0] + Zeros(n - |v[1]|) + v[1])
  }

  function EcdsaDer(raw: bytes): bytes {
    var n := |raw| / 2;
    EcdsaWrite(raw[..n], raw[n..n + n])
  }

  // --- fixed width ------------------------------------------------------

  /** `fixed_width` keeps the integer, and refuses exactly those that do not fit. */
  lemma FixedWidthKeepsValue(x: bytes, n: nat)
    ensures FixedWidth(x, n).Some? <==> Value(x) < Pow256(n)
    ensures forall w :: FixedWidth(x, n) == Some(w) <==> Value(x) < Pow256(n) && |w| == n && Value(w) == Value(x)
  {
    StripLength(x, n);
    ValueStrip(x);
    if Value(x) < Pow256(n) {
      var f := FixedWidth(x, n).value;
      ValuePadded(n - |Strip(x)|, Strip(x));
      forall w: bytes | |w| == n && Value(w) == Value(x)
        ensures w == f
      {
        ValueInjective(w, f);
      }
    }
  }

  // --- writing and reading signatures -----------------------------------

  lemma WriteIsMapped(r: bytes, s: bytes)
    ensures EcdsaWrite(r, s) == DerSequence(MapInteger([r, s]))
    ensures MapNormal([r, s]) == [Normal(r), Normal(s)]
  {
    assert [r, s][1..] == [s];
    assert [s][1..] == [];
    assert MapInteger([s]) == [DerInteger(s)];
    assert MapNormal([s]) == [Normal(s)];
  }

  /** The written form depends on the two integers only. */
  lemma WriteByValue(r: bytes, s: bytes, r': bytes, s': bytes)
    requires Value(r) == Value(r') && Value(s) == Value(s')
    ensures EcdsaWrite(r, s) == EcdsaWrite(r', s')
  {
    StripByValue(r, r');
    StripByValue(s, s');
  }

  /** Parsing what was written returns the two integers without leading zeros. */
  lemma ParseWritten(r: bytes, s: bytes, limit: nat)
    requires |EcdsaWrite(r, s)| <= limit <= MAX_VECTOR
    ensures Integers(EcdsaWrite(r, s), limit) == Some([Normal(r), Normal(s)])
    ensures EcdsaParse(EcdsaWrite(r, s), limit) == Some(Signature(Normal(r), Normal(s)))
  {
    hide Integers, Normal;
    WriteIsMapped(r, s);
    SequenceRoundTrip([r, s], limit);
  }

  /** The padded halves of `ecdsa_raw`'s value spell the integers that were read. */
  lemma Halves(a: bytes, b: bytes, n: nat)
    requires |a| <= n && |b| <= n
    ensures var raw := Zeros(n - |a|) + a + Zeros(n - |b|) + b;
            |raw| == 2 * n && Value(raw[..n]) == Value(a) && Value(raw[n..]) == Value(b)
  {
    var left, right := Zeros(n - |a|) + a, Zeros(n - |b|) + b;
    var raw := Zeros(n - |a|) + a + Zeros(n - |b|) + b;
    assert raw == left + right;
    assert raw[..n] == left && raw[n..] == right;
    ValuePadded(n - |a|, a);
    ValuePadded(n - |b|, b);
  }

  lemma NormalFits(x: bytes, n: nat)
    requires n >= 1
    ensures |Normal(x)| <= n <==> Value(x) < Pow256(n)
  {
    StripLength(x, n);
    ValueStrip(x);
  }

  /** For every byte string and every width, `ecdsa_raw` returns a value exactly when the string
      is what `ecdsa_der` writes for that value: one accepted encoding for each signature. */
  lemma RawIffWritten(sig: bytes, n: nat, limit: nat, raw: bytes)
    requires n >= 1 && |sig| <= limit <= MAX_VECTOR
    ensures EcdsaRaw(sig, n, limit) == Some(raw) <==> |raw| == 2 * n && sig == EcdsaDer(raw)
  {
    if EcdsaRaw(sig, n, limit) == Some(raw) {
      RawIsWritten(sig, n, limit, raw);
    }
    if |raw| == 2 * n && sig == EcdsaDer(raw) {
      WrittenIsRaw(sig, n, limit, raw);
    }
  }

  lemma RawIsWritten(sig: bytes, n: nat, limit: nat, raw: bytes)
    requires EcdsaRaw(sig, n, limit) == Some(raw)
    ensures |raw| == 2 * n && sig == EcdsaDer(raw)
  {
    hide Integers, EcdsaWrite;
    var v := Integers(sig, limit).value;
    Halves(v[0], v[1], n);
    assert raw[n..n + n] == raw[n..];
    WriteByValue(v[0], v[1], raw[..n], raw[n..]);
  }

  lemma WrittenIsRaw(sig: bytes, n: nat, limit: nat, raw: bytes)
    requires n >= 1 && |sig| <= limit <= MAX_VECTOR
    requires |raw| == 2 * n && sig == EcdsaDer(raw)
    ensures EcdsaRaw(sig, n, limit) == Some(raw)
  {
    hide Integers, EcdsaWrite, Normal;
    var r, s := raw[..n], raw[n..];
    assert raw[n..n + n] == s;
    ParseWritten(r, s, limit);
    NormalValue(r);
    NormalValue(s);
    WriteByValue(Normal(r), Normal(s), r, s);
    ValueBound(r);
    ValueBound(s);
    NormalFits(r, n);
    NormalFits(s, n);
    var back := Zeros(n - |Normal(r)|) + Normal(r) + Zeros(n - |Normal(s)|) + Normal(s);
    Halves(Normal(r), Normal(s), n);
    ValueInjective(back[..n], r);
    ValueInjective(back[n..], s);
    assert back == back[..n] + back[n..] && raw == r + s;
  }

  /** A width of 0 accepts nothing. */
  lemma RawWidthZero(sig: bytes, limit: nat)
    ensures EcdsaRaw(sig, 0, limit) == None
  {
    if Integers(sig, limit).Some? && |Integers(sig, limit).value| == 2 {
      var used := ReadLen(sig, 1).value.used;
      ReadsNonEmpty(sig, 1 + used, limit);
    }
  }

  /** Every integer that is read back has at least one byte. */
  lemma {:induction false} ReadsNonEmpty(der: bytes, pos: nat, limit: nat)
    requires IntegersFrom(der, pos, limit).Some?
    ensures forall i :: 0 <= i < |IntegersFrom(der, pos, limit).value| ==> IntegersFrom(der, pos, limit).value[i] != []
    decreases |der| - pos
  {
    hide Slice, Normal;
    if pos < |der| {
      var l := ReadLen(der, pos + 1).value;
      ReadsNonEmpty(der, pos + 1 + l.used + l.octets, limit);
    }
  }

  /** `ecdsa_raw` undoes `ecdsa_der` for every r || s. */
  lemma RawUndoesDer(raw: bytes, n: nat, limit: nat)
    requires n >= 1 && |raw| == 2 * n && |EcdsaDer(raw)| <= limit <= MAX_VECTOR
    ensures EcdsaRaw(EcdsaDer(raw), n, limit) == Some(raw)
  {
    RawIffWritten(EcdsaDer(raw), n, limit, raw);
  }

  // --- against X.690 ----------------------------------------------------

  /** The written signature is the one DER encoding of its two integers. */
  lemma WriteIffDer(sig: bytes, r: bytes, s: bytes)
    requires |sig| <= MAX_VECTOR
    ensures sig == EcdsaWrite(r, s) <==> IsSignature(sig, Value(r), Value(s))
  {
    if sig == EcdsaWrite(r, s) {
      WriteIsDer(sig, r, s);
    }
    if IsSignature(sig, Value(r), Value(s)) {
      DerIsWritten(sig, r, s);
    }
  }

  lemma WriteIsDer(sig: bytes, r: bytes, s: bytes)
    requires |sig| <= MAX_VECTOR && sig == EcdsaWrite(r, s)
    ensures IsSignature(sig, Value(r), Value(s))
  {
    hide LengthOctets, ReadElement, IntegerContent, Content;
    var a, b := Content(r), Content(s);
    var body := DerInteger(r) + DerInteger(s);
    WriteBody(r, s);
    assert sig == [TAG_SEQUENCE] + LengthOctets(|body|) + body + [];
    ReadWritten(TAG_SEQUENCE, body, []);
    ReadWritten(TAG_INTEGER, a, DerInteger(s));
    assert DerInteger(s) == [TAG_INTEGER] + LengthOctets(|b|) + b + [];
    ReadWritten(TAG_INTEGER, b, []);
    ContentIsDer(r);
    ContentIsDer(s);
  }

  lemma WriteBody(r: bytes, s: bytes)
    ensures Flatten([DerInteger(r), DerInteger(s)]) == DerInteger(r) + DerInteger(s)
  {
    hide DerInteger;
    var parts: seq<bytes> := [DerInteger(r), DerInteger(s)];
    assert parts[1..] == [DerInteger(s)];
    assert parts[1..][1..] == [];
    assert Flatten(parts[1..]) == DerInteger(s) + [];
  }

  lemma DerIsWritten(sig: bytes, r: bytes, s: bytes)
    requires IsSignature(sig, Value(r), Value(s))
    ensures sig == EcdsaWrite(r, s)
  {
    hide LengthOctets, ReadElement, IntegerContent, Content;
    var body := ReadOnly(sig, TAG_SEQUENCE).value;
    var first := ReadElement(body).value;
    var second := ReadOnly(first.rest, TAG_INTEGER).value;
    ReadIsWritten(sig);
    ReadIsWritten(body);
    ReadIsWritten(first.rest);
    ContentIsUnique(first.content, r);
    ContentIsUnique(second, s);
    WriteBody(r, s);
    assert body == DerInteger(r) + DerInteger(s);
  }

  /** `ecdsa_raw` accepts a byte string exactly when it is the DER of two integers below 256^n,
      and returns those integers side by side. */
  lemma RawIffDer(sig: bytes, n: nat, limit: nat, raw: bytes)
    requires n >= 1 && |sig| <= limit <= MAX_VECTOR
    ensures EcdsaRaw(sig, n, limit) == Some(raw) <==>
            |raw| == 2 * n && IsSignature(sig, Value(raw[..n]), Value(raw[n..]))
  {
    hide EcdsaRaw, IsSignature, EcdsaWrite;
    RawIffWritten(sig, n, limit, raw);
    if |raw| == 2 * n {
      assert raw[n..n + n] == raw[n..];
      WriteIffDer(sig, raw[..n], raw[n..]);
    }
  }

  /** Re-encoding what `crypt_ecdsa_parse` read tells exactly whether its input was DER. */
  lemma ParseStrictWhen(sig: bytes, limit: nat)
    requires |sig| <= limit <= MAX_VECTOR
    ensures (match EcdsaParse(sig, limit)
             case None => false
             case Some(v) => EcdsaWrite(v.r, v.s) == sig)
            <==> exists r: nat, s: nat :: IsSignature(sig, r, s)
  {
    hide EcdsaParse, EcdsaWrite, IsSignature, Normal;
    if EcdsaParse(sig, limit).Some? {
      var v := EcdsaParse(sig, limit).value;
      WriteIffDer(sig, v.r, v.s);
    }
    if r: nat, s: nat :| IsSignature(sig, r, s) {
      var a, b := Base256(r), Base256(s);
      Base256Digits(r);
      Base256Digits(s);
      WriteIffDer(sig, a, b);
      ParseWritten(a, b, limit);
      NormalValue(a);
      NormalValue(b);
      WriteByValue(Normal(a), Normal(b), a, b);
    }
  }

  /** Two signatures in full: r = 1 and s = 2, and r = 128, which needs a zero in front, with s = 3, whose own
      is dropped. */
  lemma KnownSignatures()
    ensures EcdsaDer([1, 2]) == [0x30, 0x06, 0x02, 0x01, 0x01, 0x02, 0x01, 0x02]
    ensures EcdsaWrite([0x80], [0x00, 0x03]) == [0x30, 0x07, 0x02, 0x02, 0x00, 0x80, 0x02, 0x01, 0x03]
  {
    hide DerInteger;
    WriteBody([1], [2]);
    WriteBody([0x80], [0x00, 0x03]);
    KnownIntegers();
    assert [1, 2][..1] == [1] && [1, 2][1..2] == [2];
  }

  lemma KnownIntegers()
    ensures DerInteger([1]) == [0x02, 0x01, 0x01] && DerInteger([2]) == [0x02, 0x01, 0x02]
    ensures DerInteger([0x80]) == [0x02, 0x02, 0x00, 0x80] && DerInteger([0x00, 0x03]) == [0x02, 0x01, 0x03]
  {
    assert [0x00, 0x03][1..] == [0x03] && Strip([0x03]) == [0x03] && Strip([0x00, 0x03]) == [0x03];
    assert Content([1]) == [1] && Content([2]) == [2] && Content([0x80]) == [0x00, 0x80] && Content([0x00, 0x03]) == [0x03];
  }

  // --- what the lax parser accepts --------------------------------------

  /** Length octets in the short or the long form, as many as they announce, of whatever value. */
  predicate LengthForm(l: bytes) {
    l != [] && |l| == if l[0] < 128 then 1 else 1 + (l[0] - 128)
  }

  /** The value they spell; leading zeros and the long form for small values included. */
  function Spelled(l: bytes): nat {
    if l == [] then 0 else if l[0] < 128 then l[0] else Value(l[1..])
  }

  /** The five parts of an accepted signature after its tag: any length octets, and two INTEGER elements
      whose lengths are their own. */
  datatype Parts = Parts(outer: bytes, len1: bytes, first: bytes, len2: bytes, second: bytes)

  predicate Formed(p: Parts, limit: nat) {
    && LengthForm(p.outer) && LengthForm(p.len1) && LengthForm(p.len2)
    && Spelled(p.len1) == |p.first| <= limit && Spelled(p.len2) == |p.second| <= limit
  }

  /** Where the second element's length octets begin. */
  function SecondLength(p: Parts): nat {
    1 + |p.outer| + 1 + |p.len1| + |p.first| + 1
  }

  function Joined(p: Parts): (r: bytes)
    ensures |r| == SecondLength(p) + |p.len2| + |p.second|
  {
    [TAG_SEQUENCE] + p.outer + [TAG_INTEGER] + p.len1 + p.first + [TAG_INTEGER] + p.len2 + p.second
  }

  /** The string is the parts joined, or what is left of that when zeros are cut off its end, down to but
      not into the first length octet of the second element. */
  predicate Accepted(sig: bytes, p: Parts, limit: nat) {
    && Formed(p, limit) && SecondLength(p) < |sig| <= |Joined(p)|
    && Joined(p) == sig + Zeros(|Joined(p)| - |sig|)
  }

  lemma ReadLenForm(der: bytes, pos: nat, n: nat, used: nat)
    ensures ReadLen(der, pos) == Some(Length(n, used)) <==>
            pos < |der| && LengthForm(Slice(der, pos, used)) && Spelled(Slice(der, pos, used)) == n
  {
    if pos < |der| && used >= 1 {
      assert Slice(der, pos, used)[1..] == Slice(der, pos + 1, used - 1);
    }
  }

  lemma IntegersStep(der: bytes, pos: nat, limit: nat, xs: seq<bytes>)
    requires pos < |der|
    ensures IntegersFrom(der, pos, limit) == Some(xs) <==>
            && der[pos] == TAG_INTEGER && ReadLen(der, pos + 1).Some? && xs != []
            && var l := ReadLen(der, pos + 1).value;
               && l.octets <= limit && xs[0] == Normal(Slice(der, pos + 1 + l.used, l.octets))
               && IntegersFrom(der, pos + 1 + l.used + l.octets, limit) == Some(xs[1..])
  {
    hide Normal, Slice, ReadLen;
    if der[pos] == TAG_INTEGER && ReadLen(der, pos + 1).Some? {
      var l := ReadLen(der, pos + 1).value;
      var rest := IntegersFrom(der, pos + 1 + l.used + l.octets, limit);
      if rest.Some? {
        assert ([Normal(Slice(der, pos + 1 + l.used, l.octets))] + rest.value)[1..] == rest.value;
      }
      if xs != [] {
        assert xs == [xs[0]] + xs[1..];
      }
    }
  }

  lemma IntegersEnd(der: bytes, pos: nat, limit: nat)
    ensures IntegersFrom(der, pos, limit) == Some([]) <==> pos >= |der|
  {
    if pos < |der| {
      IntegersStep(der, pos, limit, []);
    }
  }

  lemma SlicePadded(sig: bytes, pad: nat, at: nat, n: nat)
    requires at + n <= |sig| + pad
    ensures Slice(sig, at, n) == (sig + Zeros(pad))[at..at + n]
  {
  }

  /** Each part of a joined string stands where it was put. */
  lemma JoinedParts(p: Parts)
    ensures var j, at := Joined(p), 1 + |p.outer|;
            && j[0] == TAG_SEQUENCE && j[1..at] == p.outer && j[at] == TAG_INTEGER
            && j[at + 1..at + 1 + |p.len1|] == p.len1
            && j[at + 1 + |p.len1|..at + 1 + |p.len1| + |p.first|] == p.first
            && j[SecondLength(p) - 1] == TAG_INTEGER
            && j[SecondLength(p)..SecondLength(p) + |p.len2|] == p.len2
            && j[SecondLength(p) + |p.len2|..] == p.second
  {
    var a := [TAG_SEQUENCE] + p.outer;
    var b := a + [TAG_INTEGER] + p.len1;
    var c := b + p.first + [TAG_INTEGER];
    assert Joined(p) == c + p.len2 + p.second;
  }

  /** And a string with those parts in those places is the joined one. */
  lemma PartsJoin(j: bytes, p: Parts)
    requires |j| == SecondLength(p) + |p.len2| + |p.second|
    requires var at := 1 + |p.outer|;
             && j[0] == TAG_SEQUENCE && j[1..at] == p.outer && j[at] == TAG_INTEGER
             && j[at + 1..at + 1 + |p.len1|] == p.len1
             && j[at + 1 + |p.len1|..at + 1 + |p.len1| + |p.first|] == p.first
             && j[SecondLength(p) - 1] == TAG_INTEGER
             && j[SecondLength(p)..SecondLength(p) + |p.len2|] == p.len2
             && j[SecondLength(p) + |p.len2|..] == p.second
    ensures j == Joined(p)
  {
    var at, second := 1 + |p.outer|, SecondLength(p);
    assert j[..1] == [TAG_SEQUENCE];
    assert j[..at] == j[..1] + j[1..at];
    assert j[..at + 1] == j[..at] + [TAG_INTEGER];
    assert j[..at + 1 + |p.len1|] == j[..at + 1] + p.len1;
    assert j[..second - 1] == j[..at + 1 + |p.len1|] + p.first;
    assert j[..second] == j[..second - 1] + [TAG_INTEGER];
    assert j[..second + |p.len2|] == j[..second] + p.len2;
    assert j == j[..second + |p.len2|] + p.second;
  }

  /** The two integers are read at these places. */
  predicate ReadsTwo(sig: bytes, limit: nat, outer: Length, l1: Length, l2: Length) {
    var at := 1 + outer.used;
    var next := at + 1 + l1.used + l1.octets;
    && next + 1 < |sig| <= next + 1 + l2.used + l2.octets
    && sig[0] == TAG_SEQUENCE && sig[at] == TAG_INTEGER && sig[next] == TAG_INTEGER
    && ReadLen(sig, 1) == Some(outer)
    && ReadLen(sig, at + 1) == Some(l1) && l1.octets <= limit
    && ReadLen(sig, next + 1) == Some(l2) && l2.octets <= limit
  }

  function FirstRead(sig: bytes, outer: Length, l1: Length): bytes {
    Slice(sig, 1 + outer.used + 1 + l1.used, l1.octets)
  }

  function SecondRead(sig: bytes, outer: Length, l1: Length, l2: Length): bytes {
    Slice(sig, 1 + outer.used + 1 + l1.used + l1.octets + 1 + l2.used, l2.octets)
  }

  lemma TwoParse(sig: bytes, limit: nat, outer: Length, l1: Length, l2: Length)
    requires ReadsTwo(sig, limit, outer, l1, l2)
    ensures EcdsaParse(sig, limit) == Some(Signature(Normal(FirstRead(sig, outer, l1)), Normal(SecondRead(sig, outer, l1, l2))))
  {
    hide Normal, Slice, ReadLen, IntegersFrom;
    var at := 1 + outer.used;
    var next := at + 1 + l1.used + l1.octets;
    var v: seq<bytes> := [Normal(FirstRead(sig, outer, l1)), Normal(SecondRead(sig, outer, l1, l2))];
    assert v[1..][1..] == [];
    IntegersEnd(sig, next + 1 + l2.used + l2.octets, limit);
    IntegersStep(sig, next, limit, v[1..]);
    IntegersStep(sig, at, limit, v);
  }

  lemma ParsesTwo(sig: bytes, limit: nat, v: Signature) returns (outer: Length, l1: Length, l2: Length)
    requires EcdsaParse(sig, limit) == Some(v)
    ensures ReadsTwo(sig, limit, outer, l1, l2)
    ensures v == Signature(Normal(FirstRead(sig, outer, l1)), Normal(SecondRead(sig, outer, l1, l2)))
  {
    hide Normal, Slice, ReadLen, IntegersFrom;
    var xs: seq<bytes> := Integers(sig, limit).value;
    assert xs[1..][1..] == [];
    outer := ReadLen(sig, 1).value;
    var at := 1 + outer.used;
    IntegersEnd(sig, at, limit);
    IntegersStep(sig, at, limit, xs);
    l1 := ReadLen(sig, at + 1).value;
    var next := at + 1 + l1.used + l1.octets;
    IntegersEnd(sig, next, limit);
    IntegersStep(sig, next, limit, xs[1..]);
    l2 := ReadLen(sig, next + 1).value;
    IntegersEnd(sig, next + 1 + l2.used + l2.octets, limit);
    ReadLenForm(sig, next + 1, l2.octets, l2.used);
  }

  /** The parts that are read. */
  function PartsRead(sig: bytes, outer: Length, l1: Length, l2: Length): (p: Parts)
    ensures SecondLength(p) == 1 + outer.used + 1 + l1.used + l1.octets + 1
  {
    var next := 1 + outer.used + 1 + l1.used + l1.octets;
    Parts(Slice(sig, 1, outer.used), Slice(sig, 1 + outer.used + 1, l1.used), FirstRead(sig, outer, l1),
          Slice(sig, next + 1, l2.used), SecondRead(sig, outer, l1, l2))
  }

  lemma TwoAreAccepted(sig: bytes, limit: nat, outer: Length, l1: Length, l2: Length)
    requires ReadsTwo(sig, limit, outer, l1, l2)
    ensures Accepted(sig, PartsRead(sig, outer, l1, l2), limit)
  {
    hide Slice, ReadLen, LengthForm, Spelled, Joined;
    var p := PartsRead(sig, outer, l1, l2);
    var at, second := 1 + outer.used, SecondLength(p);
    var pad := second + l2.used + l2.octets - |sig|;
    ReadLenForm(sig, 1, outer.octets, outer.used);
    ReadLenForm(sig, at + 1, l1.octets, l1.used);
    ReadLenForm(sig, second, l2.octets, l2.used);
    SlicePadded(sig, pad, 1, outer.used);
    SlicePadded(sig, pad, at + 1, l1.used);
    SlicePadded(sig, pad, at + 1 + l1.used, l1.octets);
    SlicePadded(sig, pad, second, l2.used);
    SlicePadded(sig, pad, second + l2.used, l2.octets);
    PartsJoin(sig + Zeros(pad), p);
  }

  /** Parts of an accepted string are read where they stand. */
  lemma AcceptedAreTwo(sig: bytes, limit: nat, p: Parts)
    requires Accepted(sig, p, limit)
    ensures var outer, l1, l2 := Length(Spelled(p.outer), |p.outer|), Length(|p.first|, |p.len1|), Length(|p.second|, |p.len2|);
            ReadsTwo(sig, limit, outer, l1, l2) && PartsRead(sig, outer, l1, l2) == p
  {
    hide Slice, ReadLen, LengthForm, Spelled, Joined;
    var j, at, second := Joined(p), 1 + |p.outer|, SecondLength(p);
    var pad := |j| - |sig|;
    JoinedParts(p);
    SlicePadded(sig, pad, 1, |p.outer|);
    SlicePadded(sig, pad, at + 1, |p.len1|);
    SlicePadded(sig, pad, at + 1 + |p.len1|, |p.first|);
    SlicePadded(sig, pad, second, |p.len2|);
    SlicePadded(sig, pad, second + |p.len2|, |p.second|);
    assert j[second + |p.len2|..second + |p.len2| + |p.second|] == j[second + |p.len2|..];
    ReadLenForm(sig, 1, Spelled(p.outer), |p.outer|);
    ReadLenForm(sig, at + 1, |p.first|, |p.len1|);
    ReadLenForm(sig, second, |p.second|, |p.len2|);
    assert sig[0] == j[0] && sig[at] == j[at] && sig[second - 1] == j[second - 1];
  }

  /** For every string: `crypt_ecdsa_parse` returns a pair exactly when the string is a SEQUENCE tag, any
      length octets, and two INTEGER elements with that pair, zeros at the end of the second one cut off
      or not. */
  lemma ParseIff(sig: bytes, limit: nat, v: Signature)
    ensures EcdsaParse(sig, limit) == Some(v) <==>
            exists p: Parts :: Accepted(sig, p, limit) && v == Signature(Normal(p.first), Normal(p.second))
  {
    hide Accepted, EcdsaParse, Normal, ReadsTwo, Slice;
    if EcdsaParse(sig, limit) == Some(v) {
      var outer, l1, l2 := ParsesTwo(sig, limit, v);
      TwoAreAccepted(sig, limit, outer, l1, l2);
    }
    if p: Parts :| Accepted(sig, p, limit) && v == Signature(Normal(p.first), Normal(p.second)) {
      AcceptedAreTwo(sig, limit, p);
      TwoParse(sig, limit, Length(Spelled(p.outer), |p.outer|), Length(|p.first|, |p.len1|), Length(|p.second|, |p.len2|));
    }
  }

  /** `crypt_ecdsa_parse` alone is lax: a wrong SEQUENCE length and an integer that runs past the
      end are both read, so one pair has several accepted encodings. */
  lemma ParseIsLax(limit: nat)
    requires 8 <= limit
    ensures var good := [0x30, 0x06, 0x02, 0x01, 0x01, 0x02, 0x01, 0x01];
            var lying := [0x30, 0x00, 0x02, 0x01, 0x01, 0x02, 0x01, 0x01];
            good != lying && EcdsaParse(good, limit).Some? && EcdsaParse(good, limit) == EcdsaParse(lying, limit)
  {
    ParsesToOnes(0x06, limit);
    ParsesToOnes(0x00, limit);
    assert [0x30, 0x06, 0x02, 0x01, 0x01, 0x02, 0x01, 0x01][1] == 0x06;
    assert [0x30, 0x00, 0x02, 0x01, 0x01, 0x02, 0x01, 0x01][1] == 0x00;
  }

  lemma ParsesToOnes(declared: byte, limit: nat)
    requires declared < 128 && 8 <= limit
    ensures EcdsaParse([0x30, declared, 0x02, 0x01, 0x01, 0x02, 0x01, 0x01], limit) == Some(Signature([1], [1]))
  {
    var der := [0x30, declared, 0x02, 0x01, 0x01, 0x02, 0x01, 0x01];
    var one: bytes := [1];
    assert Normal(one) == one;
    assert ReadLen(der, 6) == Some(Length(1, 1)) && ReadLen(der, 3) == Some(Length(1, 1));
    assert Slice(der, 7, 1) == one && Slice(der, 4, 1) == one;
    assert IntegersFrom(der, 8, limit) == Some([]);
    assert IntegersFrom(der, 5, limit) == Prepend([one], Some([]));
    assert [one] + [] == [one] && [one] + [one] == [one, one];
    assert IntegersFrom(der, 2, limit) == Prepend([one], Some([one]));
  }
}
