/** Bytes as they travel over a socket: exclusive or, and integers in network byte order. */
module Bytes {

  type Byte = n: int | 0 <= n < 256

  function Power2(n: nat): (p: nat)
    ensures p >= 1
  {
    if n == 0 then 1 else 2 * Power2(n - 1)
  }

  /** Exclusive or, bit by bit. */
  function XorOf(a: nat, b: nat): nat {
    if a == 0 && b == 0 then 0 else 2 * XorOf(a / 2, b / 2) + (a + b) % 2
  }

  lemma {:induction false} XorBelow(a: nat, b: nat, n: nat)
    requires a < Power2(n) && b < Power2(n)
    ensures XorOf(a, b) < Power2(n)
    decreases n
  {
    if n > 0 {
      XorBelow(a / 2, b / 2, n - 1);
    }
  }

  lemma {:induction false} XorOfTwice(a: nat, b: nat)
    ensures XorOf(XorOf(a, b), b) == a
  {
    if a > 0 || b > 0 {
      LastBit(XorOf(a / 2, b / 2), a, b);
      XorOfTwice(a / 2, b / 2);
    }
  }

  lemma {:induction false} XorOfCommutes(a: nat, b: nat)
    ensures XorOf(a, b) == XorOf(b, a)
  {
    if a > 0 || b > 0 {
      XorOfCommutes(a / 2, b / 2);
    }
  }

  lemma LastBit(r: nat, a: nat, b: nat)
    ensures (2 * r + (a + b) % 2) / 2 == r
    ensures (2 * r + (a + b) % 2 + b) % 2 == a % 2
  {
  }

  function Xor(a: Byte, b: Byte): Byte {
    ByteXor(a, b);
    XorOf(a, b)
  }

  lemma ByteXor(a: Byte, b: Byte)
    ensures XorOf(a, b) < 256
  {
    assert Power2(4) == 16 && Power2(8) == 256;
    XorBelow(a, b, 8);
  }

  function Power256(n: nat): (p: nat)
    ensures p >= 1
  {
    if n == 0 then 1 else 256 * Power256(n - 1)
  }

  /** qToBigEndian for an integer of size bytes. */
  function BigEndian(value: nat, size: nat): (b: seq<Byte>)
    ensures |b| == size
  {
    if size == 0 then [] else BigEndian(value / 256, size - 1) + [value % 256]
  }

  /** qFromBigEndian. */
  function FromBigEndian(b: seq<Byte>): nat {
    if b == [] then 0 else 256 * FromBigEndian(b[..|b| - 1]) + b[|b| - 1]
  }

  lemma {:induction false} BigEndianRoundTrip(value: nat, size: nat)
    requires value < Power256(size)
    ensures FromBigEndian(BigEndian(value, size)) == value
  {
    if size > 0 {
      BigEndianRoundTrip(value / 256, size - 1);
      assert BigEndian(value, size)[..size - 1] == BigEndian(value / 256, size - 1);
    }
  }
}
