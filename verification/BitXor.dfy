/** Exclusive or of bytes and of byte strings. */
module BitXor {
  import opened Bytes

  /** Exclusive or of the low n bits. */
  function XorBits(a: nat, b: nat, n: nat): (r: nat)
    ensures r < Pow2(n)
  {
    if n == 0 then 0 else (if a % 2 == b % 2 then 0 else 1) + 2 * XorBits(a / 2, b / 2, n - 1)
  }

  function Pow2(n: nat): nat {
    if n == 0 then 1 else 2 * Pow2(n - 1)
  }

  function XorByte(a: byte, b: byte): byte {
    assert Pow2(8) == 2 * (2 * (2 * (2 * (2 * (2 * (2 * (2 * Pow2(0))))))));
    XorBits(a, b, 8)
  }

  function Xor(a: bytes, b: bytes): (r: bytes)
    requires |a| == |b|
    ensures |r| == |a|
  {
    seq(|a|, i requires 0 <= i < |a| => XorByte(a[i], b[i]))
  }

  /** Bit j of x, counted from the lowest. */
  function Bit(x: nat, j: nat): nat {
    if j == 0 then x % 2 else Bit(x / 2, j - 1)
  }

  lemma {:induction false} XorBitsBit(a: nat, b: nat, n: nat, j: nat)
    requires j < n
    ensures Bit(XorBits(a, b, n), j) == 1 <==> Bit(a, j) != Bit(b, j)
  {
    LowBit(if a % 2 == b % 2 then 0 else 1, XorBits(a / 2, b / 2, n - 1));
    if j > 0 {
      XorBitsBit(a / 2, b / 2, n - 1, j - 1);
    }
  }

  const POWERS: seq<nat> := [1, 2, 4, 8, 16, 32, 64, 128]

  lemma HalfFirst(x: nat, j: nat)
    requires 0 < j < 8
    ensures x / 2 / POWERS[j - 1] == x / POWERS[j]
  {
    match j {
      case 1 => assert x / 2 / 1 == x / 2;
      case 2 => assert x / 2 / 2 == x / 4;
      case 3 => assert x / 2 / 4 == x / 8;
      case 4 => assert x / 2 / 8 == x / 16;
      case 5 => assert x / 2 / 16 == x / 32;
      case 6 => assert x / 2 / 32 == x / 64;
      case 7 => assert x / 2 / 64 == x / 128;
    }
  }

  lemma {:induction false} BitByDivision(x: nat, j: nat)
    requires j < 8
    ensures Bit(x, j) == x / POWERS[j] % 2
  {
    if j > 0 {
      HalfFirst(x, j);
      BitByDivision(x / 2, j - 1);
    } else {
      assert x / 1 == x;
    }
  }

  /** A bit of the result is set exactly when that bit differs in the two bytes. */
  lemma XorByteByBit(a: byte, b: byte, d: nat)
    requires d in [1, 2, 4, 8, 16, 32, 64, 128]
    ensures XorByte(a, b) / d % 2 == 1 <==> a / d % 2 != b / d % 2
  {
    hide XorBits, Bit;
    var j :| 0 <= j < 8 && POWERS[j] == d;
    BitByDivision(a, j);
    BitByDivision(b, j);
    BitByDivision(XorByte(a, b), j);
    XorBitsBit(a, b, 8, j);
  }

  /** Strings are combined byte by byte, and bit by bit within a byte. */
  lemma XorByBit(a: bytes, b: bytes, i: nat, d: nat)
    requires |a| == |b| && i < |a| && d in [1, 2, 4, 8, 16, 32, 64, 128]
    ensures |Xor(a, b)| == |a| && (Xor(a, b)[i] / d % 2 == 1 <==> a[i] / d % 2 != b[i] / d % 2)
  {
    XorByteByBit(a[i], b[i], d);
  }

  lemma {:induction false} XorBitsCancel(a: nat, b: nat, n: nat)
    requires a < Pow2(n)
    ensures XorBits(XorBits(a, b, n), b, n) == a
  {
    if n > 0 {
      XorBitsCancel(a / 2, b / 2, n - 1);
      LowBit(if a % 2 == b % 2 then 0 else 1, XorBits(a / 2, b / 2, n - 1));
    }
  }

  lemma LowBit(low: nat, high: nat)
    requires low < 2
    ensures (low + 2 * high) / 2 == high && (low + 2 * high) % 2 == low
  {
  }

  lemma XorByteCancels(a: byte, b: byte)
    ensures XorByte(XorByte(a, b), b) == a
  {
    assert Pow2(8) == 2 * (2 * (2 * (2 * (2 * (2 * (2 * (2 * Pow2(0))))))));
    XorBitsCancel(a, b, 8);
  }

  lemma XorCancels(a: bytes, b: bytes)
    requires |a| == |b|
    ensures Xor(Xor(a, b), b) == a
  {
    forall i | 0 <= i < |a| ensures Xor(Xor(a, b), b)[i] == a[i] {
      XorByteCancels(a[i], b[i]);
    }
  }
}
