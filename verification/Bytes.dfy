/** Byte strings and their big-endian values. */
module Bytes {

  type byte = x: int | 0 <= x < 256

  type bytes = seq<byte>

  function Pow256(n: nat): (p: nat)
    ensures p > 0
  {
    if n == 0 then 1 else 256 * Pow256(n - 1)
  }

  /** The unsigned integer a byte string spells, most significant byte first. */
  function Value(s: bytes): nat {
    if s == [] then 0 else Value(s[..|s| - 1]) * 256 + s[|s| - 1]
  }

  function Zeros(n: nat): bytes {
    seq(n, _ => 0)
  }

  /** The string without its leading zero bytes: R's `x[cumsum(x != as.raw(0)) > 0]`. */
  function Strip(s: bytes): bytes {
    if s != [] && s[0] == 0 then Strip(s[1..]) else s
  }

  /** Only zeros are dropped, and all of the leading ones are. */
  lemma {:induction false} StripSplits(s: bytes)
    ensures |Strip(s)| <= |s|
    ensures s == Zeros(|s| - |Strip(s)|) + Strip(s)
    ensures Strip(s) == [] || Strip(s)[0] != 0
  {
    if s != [] && s[0] == 0 {
      StripSplits(s[1..]);
      assert s == [0] + s[1..];
    }
  }

  /** Concatenation of a list of byte strings. */
  function Flatten(parts: seq<bytes>): bytes {
    if parts == [] then [] else parts[0] + Flatten(parts[1..])
  }

  lemma {:induction false} FlattenSnoc(parts: seq<bytes>, last: bytes)
    ensures Flatten(parts + [last]) == Flatten(parts) + last
  {
    if parts == [] {
      assert parts + [last] == [last];
      assert Flatten([last]) == last + Flatten([last][1..]);
    } else {
      assert (parts + [last])[1..] == parts[1..] + [last];
      FlattenSnoc(parts[1..], last);
    }
  }

  lemma {:induction false} ValueBound(s: bytes)
    ensures Value(s) < Pow256(|s|)
  {
    if s != [] {
      ValueBound(s[..|s| - 1]);
    }
  }

  lemma {:induction false} ValueAppend(a: bytes, b: bytes)
    ensures Value(a + b) == Value(a) * Pow256(|b|) + Value(b)
  {
    if b == [] {
      assert a + b == a;
    } else {
      var b' := b[..|b| - 1];
      assert (a + b)[..|a + b| - 1] == a + b';
      ValueAppend(a, b');
      assert (Value(a) * Pow256(|b'|)) * 256 == Value(a) * Pow256(|b|);
    }
  }

  lemma ValueShort(a: byte, b: byte)
    ensures Value([a]) == a
    ensures Value([a, b]) == a * 256 + b
  {
    var one: bytes, two: bytes := [a], [a, b];
    assert one[..0] == [] && two[..1] == one;
  }

  lemma {:induction false} ValueZeros(n: nat)
    ensures Value(Zeros(n)) == 0
  {
    if n > 0 {
      assert Zeros(n)[..n - 1] == Zeros(n - 1);
      ValueZeros(n - 1);
    }
  }

  lemma ValuePadded(n: nat, s: bytes)
    ensures Value(Zeros(n) + s) == Value(s)
  {
    ValueAppend(Zeros(n), s);
    ValueZeros(n);
  }

  lemma ValueStrip(s: bytes)
    ensures Value(Strip(s)) == Value(s)
  {
    StripSplits(s);
    ValuePadded(|s| - |Strip(s)|, Strip(s));
  }

  /** Equal-length strings are determined by their values. */
  lemma {:induction false} ValueInjective(s: bytes, t: bytes)
    requires |s| == |t| && Value(s) == Value(t)
    ensures s == t
  {
    if s != [] {
      var s', t' := s[..|s| - 1], t[..|t| - 1];
      assert Value(s') * 256 + s[|s| - 1] == Value(t') * 256 + t[|t| - 1];
      assert Value(s') == Value(t');
      ValueInjective(s', t');
      assert s == s' + [s[|s| - 1]] && t == t' + [t[|t| - 1]];
    }
  }

  lemma {:induction false} Pow256Monotone(m: nat, n: nat)
    requires m <= n
    ensures Pow256(m) <= Pow256(n)
  {
    if m < n {
      Pow256Monotone(m, n - 1);
    }
  }

  /** A string that starts with a non-zero byte is at least 256^(length - 1). */
  lemma {:induction false} ValueOfNormal(s: bytes)
    requires s != [] && s[0] != 0
    ensures Value(s) >= Pow256(|s| - 1)
  {
    if |s| > 1 {
      ValueOfNormal(s[..|s| - 1]);
    }
  }

  /** Two strings strip to the same one exactly when they spell the same integer. */
  lemma StripByValue(s: bytes, t: bytes)
    ensures Strip(s) == Strip(t) <==> Value(s) == Value(t)
  {
    ValueStrip(s);
    ValueStrip(t);
    var a, b := Strip(s), Strip(t);
    if Value(a) == Value(b) {
      StripLength(s, |b|);
      StripLength(t, |a|);
      ValueBound(a);
      ValueBound(b);
      ValueInjective(a, b);
    }
  }

  /** The stripped string fits in n bytes exactly when the integer is below 256^n. */
  lemma StripLength(s: bytes, n: nat)
    ensures |Strip(s)| <= n <==> Value(s) < Pow256(n)
  {
    var r := Strip(s);
    StripSplits(s);
    ValueStrip(s);
    ValueBound(r);
    if |r| <= n {
      Pow256Monotone(|r|, n);
    } else {
      ValueOfNormal(r);
      Pow256Monotone(n, |r| - 1);
    }
  }

  lemma SliceOfRest(s: bytes, n: nat, a: nat, b: nat)
    requires n <= |s| && a <= b <= |s| - n
    ensures s[n..][a..b] == s[n + a..n + b]
  {
  }
}
