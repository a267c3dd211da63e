/** A strict DER reader, written from X.690 alone: definite lengths in their shortest form
    (sections 8.1.3 and 10.1) and non-negative INTEGERs in their shortest form (section 8.3).
    It is the reference the encoders and decoders of the package are compared with. */
module X690 {
  import opened Bytes
  import opened Options

  const TAG_INTEGER: byte := 0x02
  const TAG_BIT_STRING: byte := 0x03
  const TAG_OCTET_STRING: byte := 0x04
  const TAG_SEQUENCE: byte := 0x30

  datatype Length = Length(octets: nat, used: nat)

  datatype Element = Element(tag: byte, content: bytes, rest: bytes)

  /** The length at the start of `s`; None unless it is in the shortest form. */
  function ReadLength(s: bytes): (r: Option<Length>)
    ensures r.Some? ==> 1 <= r.value.used <= |s|
  {
    if s == [] then None
    else if s[0] < 128 then Some(Length(s[0], 1))
    else
      var k := s[0] - 128;
      if k == 0 || k == 127 || |s| < 1 + k || s[1] == 0 || Value(s[1..1 + k]) < 128 then None
      else Some(Length(Value(s[1..1 + k]), 1 + k))
  }

  /** Section 8.1.3 with section 10.1: one octet below 128, or a count of 1 to 126 octets that follow and spell,
      without a leading zero, a number of at least 128. */
  lemma LengthExactly(s: bytes, n: nat, used: nat)
    ensures ReadLength(s) == Some(Length(n, used)) <==>
            || (used == 1 && s != [] && s[0] == n < 128)
            || (2 <= used <= 127 && used <= |s| && s[0] == 127 + used && s[1] != 0 && n == Value(s[1..used]) && n >= 128)
  {
  }

  /** The universal tag numbers of INTEGER, BIT STRING and OCTET STRING, and of SEQUENCE with the constructed
      bit (section 8.1.2). */
  lemma UniversalTags()
    ensures TAG_INTEGER == 2 && TAG_BIT_STRING == 3 && TAG_OCTET_STRING == 4 && TAG_SEQUENCE == 16 + 0x20
  {
  }

  /** The element at the start of `s`, which must lie wholly inside `s`. */
  function ReadElement(s: bytes): (r: Option<Element>)
    ensures r.Some? ==> |r.value.content| + |r.value.rest| < |s|
  {
    if s == [] then None
    else match ReadLength(s[1..])
      case None => None
      case Some(Length(n, used)) =>
        var start := 1 + used;
        if |s| < start + n then None
        else Some(Element(s[0], s[start..start + n], s[start + n..]))
  }

  /** The content of an element that has this tag and is followed by nothing. */
  function ReadOnly(s: bytes, tag: byte): Option<bytes> {
    match ReadElement(s)
    case Some(Element(t, content, rest)) => if t == tag && rest == [] then Some(content) else None
    case None => None
  }

  /** Section 8.3: the contents octets of the non-negative INTEGER `v`. */
  predicate IntegerContent(c: bytes, v: nat) {
    && c != []
    && c[0] < 128
    && (|c| > 1 && c[0] == 0 ==> c[1] >= 128)
    && Value(c) == v
  }

  /** `sig` is exactly SEQUENCE { INTEGER r, INTEGER s } (section 2.2.3 of RFC 3279). */
  predicate IsSignature(sig: bytes, r: nat, s: nat) {
    match ReadOnly(sig, TAG_SEQUENCE)
    case None => false
    case Some(body) =>
      match ReadElement(body)
      case None => false
      case Some(Element(tag, first, rest)) =>
        match ReadOnly(rest, TAG_INTEGER)
        case None => false
        case Some(second) =>
          tag == TAG_INTEGER && IntegerContent(first, r) && IntegerContent(second, s)
  }

  /** Section 8.19: a subidentifier in base 128, the top bit set on all digits but the last. */
  function Base128(n: nat): bytes
    requires n < 0x20_0000
  {
    if n < 0x80 then [n]
    else if n < 0x4000 then [0x80 + n / 0x80, n % 0x80]
    else [0x80 + n / 0x4000, 0x80 + n / 0x80 % 0x80, n % 0x80]
  }

  /** The digits spell the number, in as few octets as it has base-128 digits. */
  lemma Base128Exactly(n: nat)
    requires n < 0x20_0000
    ensures var d := Base128(n);
            && (n < 0x80 <==> |d| == 1) && (n < 0x4000 <==> |d| <= 2) && |d| <= 3
            && var last: nat := d[|d| - 1];
               && last == n % 128
               && (|d| >= 2 ==> var next: nat := d[|d| - 2]; next == 128 + n / 128 % 128)
               && (|d| == 3 ==> var first: nat := d[0]; first == 128 + n / 16384)
  {
  }

  /** An OBJECT IDENTIFIER with these contents; its first subidentifier is 40 times the first arc plus
      the second. */
  function Oid(content: bytes): bytes
    requires |content| < 0x80
  {
    [0x06, |content|] + content
  }
}
