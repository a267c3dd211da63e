/** The DER writer and reader of R/pkey.R: a SEQUENCE of INTEGERs. The reader is lax; the strict
    reader of X.690 is what both are measured against. */
module DerIntegers {
  import opened Bytes
  import opened Options
  import opened X690

  /** R's longest vector, R_XLEN_T_MAX: `seq_len` refuses anything longer. */
  const MAX_VECTOR: nat := 0x10_0000_0000_0000

  /** `as.raw`: a number outside 0..255 becomes 00. */
  function AsRaw(n: nat): byte {
    if n < 256 then n else 0
  }

  /** The base-256 digits of n, none for 0. */
  function Base256(n: nat): bytes {
    if n == 0 then [] else Base256(n / 256) + [n % 256]
  }

  /** What `der_length(n)` returns. */
  function LengthOctets(n: nat): bytes {
    if n < 128 then [n]
    else
      var b := Base256(n);
      [AsRaw(0x80 + |b|)] + b
  }

  method DerLength(n: nat) returns (r: bytes)
    ensures r == LengthOctets(n)
  {
    if n < 128 {
      return [n];
    }
    var digits: bytes, left := [], n;
    while left > 0
      invariant Base256(left) + digits == Base256(n)
    {
      assert Base256(left / 256) + ([left % 256] + digits) == Base256(left) + digits;
      digits := [left % 256] + digits;
      left := left / 256;
    }
    r := [AsRaw(0x80 + |digits|)] + digits;
  }

  /** An unsigned integer in the form the reader returns: no leading zeros, one 00 for zero. */
  function Normal(x: bytes): (r: bytes)
    ensures r != []
  {
    if Strip(x) == [] then [0] else Strip(x)
  }

  /** The contents octets `der_integer` writes. */
  function Content(x: bytes): bytes {
    var s := Normal(x);
    if s[0] >= 128 then [0] + s else s
  }

  function DerInteger(x: bytes): bytes {
    [TAG_INTEGER] + LengthOctets(|Content(x)|) + Content(x)
  }

  function DerSequence(parts: seq<bytes>): bytes {
    [TAG_SEQUENCE] + LengthOctets(|Flatten(parts)|) + Flatten(parts)
  }

  function MapInteger(xs: seq<bytes>): (r: seq<bytes>)
    ensures |r| == |xs|
  {
    if xs == [] then [] else [DerInteger(xs[0])] + MapInteger(xs[1..])
  }

  function MapNormal(xs: seq<bytes>): (r: seq<bytes>)
    ensures |r| == |xs|
  {
    if xs == [] then [] else [Normal(xs[0])] + MapNormal(xs[1..])
  }

  // --- the reader -------------------------------------------------------

  /** `der[start + seq_len(n) - 1L]`: elements past the end of a raw vector read as 00. */
  function Slice(der: bytes, start: nat, n: nat): (r: bytes)
    ensures |r| == n
  {
    seq(n, i requires 0 <= i < n => if start + i < |der| then der[start + i] else 0)
  }

  /** `read_len`; None is the out-of-range `[[` error. Positions count from 0. */
  function ReadLen(der: bytes, pos: nat): (r: Option<Length>)
    ensures r.Some? ==> r.value.used >= 1
  {
    if pos >= |der| then None
    else if der[pos] < 128 then Some(Length(der[pos], 1))
    else
      var k := der[pos] - 128;
      Some(Length(Value(Slice(der, pos + 1, k)), 1 + k))
  }

  /** `out` followed by what is still to be read. */
  function Prepend(out: seq<bytes>, more: Option<seq<bytes>>): Option<seq<bytes>> {
    match more
    case None => None
    case Some(rest) => Some(out + rest)
  }

  /** The integers from `pos` on; None is an R error. `limit` is the longest vector that this
      R session can allocate. */
  function IntegersFrom(der: bytes, pos: nat, limit: nat): (r: Option<seq<bytes>>)
    decreases |der| - pos
  {
    if pos >= |der| then Some([])
    else if der[pos] != TAG_INTEGER then None
    else match ReadLen(der, pos + 1)
      case None => None
      case Some(Length(n, used)) =>
        if n > limit then None
        else
          var start := pos + 1 + used;
          Prepend([Normal(Slice(der, start, n))], IntegersFrom(der, start + n, limit))
  }

  /** What `der_integers(der)` returns: the outer tag is not looked at, and of the outer length
      only its own size is used. */
  function Integers(der: bytes, limit: nat): Option<seq<bytes>> {
    match ReadLen(der, 1)
    case None => None
    case Some(Length(_, used)) => IntegersFrom(der, 1 + used, limit)
  }

  /** The loop of `der_integers`; it ends on every input. */
  method DerIntegers(der: bytes, limit: nat) returns (r: Option<seq<bytes>>)
    ensures r == Integers(der, limit)
  {
    hide Strip;
    var outer := ReadLen(der, 1);
    if outer.None? {
      return None;
    }
    var pos := 1 + outer.value.used;
    var out: seq<bytes> := [];
    ghost var begin := pos;
    PrependNothing(IntegersFrom(der, begin, limit));
    while pos < |der|
      invariant begin <= pos
      invariant IntegersFrom(der, begin, limit) == Prepend(out, IntegersFrom(der, pos, limit))
      decreases |der| - pos
    {
      if der[pos] != TAG_INTEGER {
        return None;
      }
      var l := ReadLen(der, pos + 1);
      if l.None? || l.value.octets > limit {
        return None;
      }
      var start := pos + 1 + l.value.used;
      var value := Strip(Slice(der, start, l.value.octets));
      if value == [] {
        value := [0];
      }
      PrependTwice(out, [value], IntegersFrom(der, start + l.value.octets, limit));
      out := out + [value];
      pos := start + l.value.octets;
    }
    assert out + [] == out;
    r := Some(out);
  }

  lemma PrependNothing(more: Option<seq<bytes>>)
    ensures Prepend([], more) == more
  {
    if more.Some? {
      assert [] + more.value == more.value;
    }
  }

  lemma PrependTwice(a: seq<bytes>, b: seq<bytes>, more: Option<seq<bytes>>)
    ensures Prepend(a, Prepend(b, more)) == Prepend(a + b, more)
  {
    if more.Some? {
      assert a + (b + more.value) == (a + b) + more.value;
    }
  }

  // --- lengths: the writer's form is the shortest form ------------------

  lemma {:induction false} Base256Digits(n: nat)
    ensures Value(Base256(n)) == n
    ensures n > 0 ==> Base256(n) != [] && Base256(n)[0] != 0
  {
    if n > 0 {
      Base256Digits(n / 256);
      var b := Base256(n);
      assert b[..|b| - 1] == Base256(n / 256);
    }
  }

  lemma Base256Length(n: nat, k: nat)
    requires n < Pow256(k)
    ensures |Base256(n)| <= k
  {
    Base256Digits(n);
    StripLength(Base256(n), k);
  }

  lemma VectorLengths(n: nat)
    requires n <= MAX_VECTOR
    ensures |Base256(n)| <= 7
  {
    assert Pow256(7) == 256 * (256 * (256 * (256 * (256 * (256 * (256 * Pow256(0)))))));
    Base256Length(n, 7);
  }

  /** Strict and lax readers both read back the written length. */
  lemma LengthRoundTrip(n: nat, tail: bytes)
    requires n <= MAX_VECTOR
    ensures ReadLength(LengthOctets(n) + tail) == Some(Length(n, |LengthOctets(n)|))
  {
    if n >= 128 {
      VectorLengths(n);
      Base256Digits(n);
      var b := Base256(n);
      var s := LengthOctets(n) + tail;
      assert s[1..1 + |b|] == b;
    }
  }

  /** Whatever the strict reader accepts as the length n is what `der_length(n)` writes. */
  lemma LengthIsUnique(s: bytes)
    requires ReadLength(s).Some?
    ensures var l := ReadLength(s).value; s[..l.used] == LengthOctets(l.octets)
  {
    var l := ReadLength(s).value;
    if s[0] >= 128 {
      var digits := s[1..l.used];
      Base256Digits(l.octets);
      StripByValue(digits, Base256(l.octets));
      assert Strip(digits) == digits && Strip(Base256(l.octets)) == Base256(l.octets);
      assert s[..l.used] == [s[0]] + digits;
    }
  }

  /** The lax length reader agrees with the strict one wherever that accepts. */
  lemma LaxReadsStrict(der: bytes, pos: nat)
    requires pos <= |der| && ReadLength(der[pos..]).Some?
    ensures ReadLen(der, pos) == ReadLength(der[pos..])
  {
    var s := der[pos..];
    if s[0] >= 128 {
      assert Slice(der, pos + 1, s[0] - 128) == s[1..1 + (s[0] - 128)];
    }
  }

  /** The longest vector has 2^52 elements. A length of 128 digits or more would have no octet to count them,
      and R writes 00 there. */
  lemma LengthsOutOfReach(n: nat)
    ensures MAX_VECTOR == 4503599627370496
    ensures n >= 128 && |Base256(n)| >= 128 ==> LengthOctets(n)[0] == 0
    ensures n >= 128 && |Base256(n)| < 128 ==> LengthOctets(n)[0] == 128 + |Base256(n)|
  {
  }

  // --- integers ---------------------------------------------------------

  lemma NormalValue(x: bytes)
    ensures Value(Normal(x)) == Value(x)
  {
    ValueStrip(x);
    ValueZeros(1);
    assert Zeros(1) == [0];
  }

  lemma ContentIsDer(x: bytes)
    ensures IntegerContent(Content(x), Value(x))
  {
    StripSplits(x);
    var s := Normal(x);
    NormalValue(x);
    assert Zeros(1) == [0];
    ValuePadded(1, s);
  }

  lemma StripNormal(s: bytes)
    requires s == [] || s[0] != 0
    ensures Strip(s) == s && Strip([0] + s) == s
  {
    assert ([0] + s)[1..] == s;
  }

  /** The shortest form is unique: it is the one `der_integer` writes. */
  lemma ContentIsUnique(c: bytes, x: bytes)
    requires IntegerContent(c, Value(x))
    ensures c == Content(x)
  {
    StripByValue(c, x);
    if c[0] == 0 {
      assert c == [0] + c[1..];
      StripNormal(c[1..]);
    } else {
      StripNormal(c);
    }
  }

  /** `der_integer(x) == der_integer(y)` exactly when x and y are the same integer. */
  lemma DerIntegerByValue(x: bytes, y: bytes)
    requires |x| < MAX_VECTOR && |y| < MAX_VECTOR
    ensures DerInteger(x) == DerInteger(y) <==> Value(x) == Value(y)
  {
    StripByValue(x, y);
    DerIntegerReads(x);
    DerIntegerReads(y);
  }

  lemma DerIntegerReads(x: bytes)
    requires |x| < MAX_VECTOR
    ensures ReadElement(DerInteger(x)) == Some(Element(TAG_INTEGER, Content(x), []))
    ensures Value(Content(x)) == Value(x)
  {
    StripSplits(x);
    ContentIsDer(x);
    ReadWritten(TAG_INTEGER, Content(x), []);
    assert DerInteger(x) + [] == DerInteger(x);
  }

  /** The strict reader takes a written element apart again. */
  lemma ReadWritten(tag: byte, content: bytes, tail: bytes)
    requires |content| <= MAX_VECTOR
    ensures ReadElement([tag] + LengthOctets(|content|) + content + tail) ==
            Some(Element(tag, content, tail))
  {
    var l := LengthOctets(|content|);
    var s := [tag] + l + content + tail;
    LengthRoundTrip(|content|, content + tail);
    assert s[1..] == l + (content + tail);
    assert s[1 + |l|..1 + |l| + |content|] == content;
    assert s[1 + |l| + |content|..] == tail;
  }

  /** Whatever the strict reader takes apart is what the writer would have written. */
  lemma ReadIsWritten(s: bytes)
    requires ReadElement(s).Some?
    ensures var e := ReadElement(s).value;
            s == [e.tag] + LengthOctets(|e.content|) + e.content + e.rest
  {
    var e := ReadElement(s).value;
    var l := ReadLength(s[1..]).value;
    LengthIsUnique(s[1..]);
    assert s == [s[0]] + s[1..][..l.used] + s[1 + l.used..1 + l.used + l.octets] + s[1 + l.used + l.octets..];
  }

  // --- the round trip ---------------------------------------------------

  /** One written integer, read where it stands. */
  lemma ReadOneInteger(der: bytes, pos: nat, l: bytes, c: bytes, post: bytes)
    requires |c| <= MAX_VECTOR && l == LengthOctets(|c|)
    requires pos <= |der| && der[pos..] == [TAG_INTEGER] + l + c + post
    ensures ReadLen(der, pos + 1) == Some(Length(|c|, |l|))
    ensures Slice(der, pos + 1 + |l|, |c|) == c
    ensures der[pos + 1 + |l| + |c|..] == post
  {
    hide LengthOctets, ReadLen;
    var s := der[pos..];
    assert forall i :: 0 <= i < |s| ==> s[i] == der[pos + i];
    assert der[pos + 1..] == l + (c + post);
    LengthRoundTrip(|c|, c + post);
    LaxReadsStrict(der, pos + 1);
  }

  lemma NormalContent(x: bytes)
    ensures Normal(Content(x)) == Normal(x)
  {
    ContentIsDer(x);
    StripByValue(Content(x), x);
  }

  lemma WrittenFirst(xs: seq<bytes>)
    requires xs != []
    ensures Flatten(MapInteger(xs)) == DerInteger(xs[0]) + Flatten(MapInteger(xs[1..]))
    ensures MapNormal(xs) == [Normal(xs[0])] + MapNormal(xs[1..])
  {
    assert MapInteger(xs)[1..] == MapInteger(xs[1..]);
  }

  lemma {:induction false} ReadIntegers(der: bytes, pos: nat, xs: seq<bytes>, limit: nat)
    requires pos <= |der| <= limit <= MAX_VECTOR
    requires der[pos..] == Flatten(MapInteger(xs))
    ensures IntegersFrom(der, pos, limit) == Some(MapNormal(xs))
    decreases |xs|
  {
    hide LengthOctets, ReadLen, Slice;
    if xs != [] {
      var c, post := Content(xs[0]), Flatten(MapInteger(xs[1..]));
      var l := LengthOctets(|c|);
      WrittenFirst(xs);
      ReadOneInteger(der, pos, l, c, post);
      ReadIntegers(der, pos + 1 + |l| + |c|, xs[1..], limit);
      NormalContent(xs[0]);
    }
  }

  /** Reading back any written SEQUENCE returns the same integers without leading zeros. */
  lemma SequenceRoundTrip(xs: seq<bytes>, limit: nat)
    requires |DerSequence(MapInteger(xs))| <= limit <= MAX_VECTOR
    ensures Integers(DerSequence(MapInteger(xs)), limit) == Some(MapNormal(xs))
  {
    hide LengthOctets, ReadLen;
    var body := Flatten(MapInteger(xs));
    var l := LengthOctets(|body|);
    var der := DerSequence(MapInteger(xs));
    assert der[1..] == l + body;
    LengthRoundTrip(|body|, body);
    LaxReadsStrict(der, 1);
    assert der[1 + |l|..] == body;
    ReadIntegers(der, 1 + |l|, xs, limit);
  }
}
