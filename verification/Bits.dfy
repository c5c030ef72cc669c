/** Bitwise operations on unsigned numbers of n bits, bit by bit. */
module Bits {
  import opened Bytes
  import opened Multiples

  function Pow2(n: nat): (p: nat)
    ensures p >= 1
  {
    if n == 0 then 1 else 2 * Pow2(n - 1)
  }

  function XorBits(n: nat, a: nat, b: nat): (r: nat)
    ensures r < Pow2(n)
  {
    if n == 0 then 0 else (if a % 2 == b % 2 then 0 else 1) + 2 * XorBits(n - 1, a / 2, b / 2)
  }

  function OrBits(n: nat, a: nat, b: nat): (r: nat)
    ensures r < Pow2(n)
  {
    if n == 0 then 0 else (if a % 2 == 1 || b % 2 == 1 then 1 else 0) + 2 * OrBits(n - 1, a / 2, b / 2)
  }

  lemma Pow2Of8()
    ensures Pow2(8) == 256
  {
    assert Pow2(4) == 16;
  }

  /** `a ^ b` */
  function Xor(a: byte, b: byte): byte {
    Pow2Of8();
    XorBits(8, a, b)
  }

  /** `a | b` */
  function Or(a: byte, b: byte): byte {
    Pow2Of8();
    OrBits(8, a, b)
  }

  /** Bit k of a number, 0 or 1. */
  function BitAt(a: nat, k: nat): (b: nat)
    ensures b < 2
  {
    a / Pow2(k) % 2
  }

  lemma NextBit(a: nat, k: nat)
    ensures BitAt(a, 0) == a % 2
    ensures k > 0 ==> BitAt(a, k) == BitAt(a / 2, k - 1)
  {
    assert Pow2(0) == 1;
    if k > 0 {
      var m := Pow2(k - 1);
      var q, r := a / 2 / m, a / 2 % m;
      assert a / 2 == q * m + r && a == 2 * (a / 2) + a % 2;
      assert q * (2 * m) == 2 * (q * m);
      DivUnique(a, q, 2 * r + a % 2, 2 * m);
    }
  }

  lemma LowestBits(n: nat, a: nat, b: nat)
    requires n > 0
    ensures XorBits(n, a, b) / 2 == XorBits(n - 1, a / 2, b / 2) && OrBits(n, a, b) / 2 == OrBits(n - 1, a / 2, b / 2)
    ensures BitAt(XorBits(n, a, b), 0) == 1 <==> BitAt(a, 0) != BitAt(b, 0)
    ensures BitAt(OrBits(n, a, b), 0) == 1 <==> BitAt(a, 0) == 1 || BitAt(b, 0) == 1
  {
    assert Pow2(0) == 1;
  }

  /** A bit of an xor is set exactly when the two bits differ, a bit of an or exactly when one of them is set. */
  lemma {:induction false} BitsOfResults(n: nat, a: nat, b: nat, k: nat)
    requires k < n
    ensures BitAt(XorBits(n, a, b), k) == 1 <==> BitAt(a, k) != BitAt(b, k)
    ensures BitAt(OrBits(n, a, b), k) == 1 <==> BitAt(a, k) == 1 || BitAt(b, k) == 1
  {
    LowestBits(n, a, b);
    if k > 0 {
      BitsOfResults(n - 1, a / 2, b / 2, k - 1);
      NextBit(a, k);
      NextBit(b, k);
      NextBit(XorBits(n, a, b), k);
      NextBit(OrBits(n, a, b), k);
    }
    hide *;
  }

  /** The places of the eight bits of a byte. */
  lemma Pow2Table()
    ensures Pow2(0) == 1 && Pow2(1) == 2 && Pow2(2) == 4 && Pow2(3) == 8
    ensures Pow2(4) == 16 && Pow2(5) == 32 && Pow2(6) == 64 && Pow2(7) == 128
  {
    assert Pow2(3) == 8;
    assert Pow2(6) == 64;
  }

  /** The same for the bytes, bit by bit: `unit` is the value of a bit. */
  lemma BitsOfBytes(a: byte, b: byte, unit: nat)
    requires unit in {1, 2, 4, 8, 16, 32, 64, 128}
    ensures Xor(a, b) / unit % 2 == 1 <==> a / unit % 2 != b / unit % 2
    ensures Or(a, b) / unit % 2 == 1 <==> a / unit % 2 == 1 || b / unit % 2 == 1
  {
    Pow2Table();
    var k: nat :| k < 8 && Pow2(k) == unit;
    BitsOfResults(8, a, b, k);
  }

  /** Xor with one key and then another gives the number back exactly when the keys are equal. */
  lemma {:induction false} XorBitsTwice(n: nat, a: nat, b: nat, c: nat)
    requires a < Pow2(n) && b < Pow2(n) && c < Pow2(n)
    ensures XorBits(n, XorBits(n, a, b), c) == a <==> b == c
  {
    if n > 0 {
      XorBitsTwice(n - 1, a / 2, b / 2, c / 2);
      var x := XorBits(n, a, b);
      assert x / 2 == XorBits(n - 1, a / 2, b / 2);
    }
  }

  lemma XorTwice(a: byte, b: byte, c: byte)
    ensures Xor(Xor(a, b), c) == a <==> b == c
  {
    Pow2Of8();
    XorBitsTwice(8, a, b, c);
  }

  lemma {:induction false} OrBitsLow(n: nat, low: nat, a: nat, b: nat)
    requires low <= n && a < Pow2(n) && b < Pow2(n) && b % Pow2(low) == 0
    ensures OrBits(n, a, b) % Pow2(low) == a % Pow2(low)
  {
    if low > 0 {
      var m := Pow2(low - 1);
      HalvesOfMultiple(b, m);
      OrBitsLow(n - 1, low - 1, a / 2, b / 2);
      OrStep(n, a, b);
      hide *;
      ModFromHalves(OrBits(n, a, b), a, m);
      Pow2Step(low);
    } else {
      assert Pow2(0) == 1;
    }
  }

  lemma Pow2Step(n: nat)
    requires n > 0
    ensures Pow2(n) == 2 * Pow2(n - 1)
  {
  }

  lemma OrStep(n: nat, a: nat, b: nat)
    requires n > 0 && b % 2 == 0
    ensures OrBits(n, a, b) % 2 == a % 2 && OrBits(n, a, b) / 2 == OrBits(n - 1, a / 2, b / 2)
  {
  }

  lemma ModDouble(a: nat, m: nat)
    requires m > 0
    ensures a % (2 * m) == a % 2 + 2 * ((a / 2) % m)
  {
    var q := (a / 2) / m;
    assert a == 2 * (a / 2) + a % 2;
    assert a / 2 == q * m + (a / 2) % m;
    assert a == q * (2 * m) + (a % 2 + 2 * ((a / 2) % m));
    DivUnique(a, q, a % 2 + 2 * ((a / 2) % m), 2 * m);
  }

  lemma ModFromHalves(r: nat, a: nat, m: nat)
    requires m > 0 && r % 2 == a % 2 && (r / 2) % m == (a / 2) % m
    ensures r % (2 * m) == a % (2 * m)
  {
    ModDouble(r, m);
    ModDouble(a, m);
  }

  lemma HalvesOfMultiple(b: nat, m: nat)
    requires m > 0 && b % (2 * m) == 0
    ensures b % 2 == 0 && (b / 2) % m == 0
  {
    ModDouble(b, m);
  }

  /** Or-ing a number without low bits into a byte keeps the byte's low four bits. */
  lemma OrKeepsLow(a: byte, b: byte)
    requires b % 16 == 0
    ensures Or(a, b) % 16 == a % 16
  {
    Pow2Of8();
    assert Pow2(4) == 16;
    OrBitsLow(8, 4, a, b);
  }

  lemma {:induction false} OrBitsTop(n: nat, a: nat, b: nat)
    requires n > 0 && a < Pow2(n) && b < Pow2(n)
    ensures OrBits(n, a, b) >= Pow2(n - 1) <==> a >= Pow2(n - 1) || b >= Pow2(n - 1)
  {
    if n > 1 {
      OrBitsTop(n - 1, a / 2, b / 2);
    }
  }

  /** The top bit of an or is the or of the top bits. */
  lemma OrTop(a: byte, b: byte)
    ensures Or(a, b) >= 128 <==> a >= 128 || b >= 128
  {
    Pow2Of8();
    assert Pow2(7) == 128 by {
      assert Pow2(4) == 16;
    }
    OrBitsTop(8, a, b);
  }

  /** Without a common bit, or is addition. */
  lemma {:induction false} OrBitsDisjoint(n: nat, low: nat, a: nat, b: nat)
    requires low <= n && a < Pow2(n) && a % Pow2(low) == 0 && b < Pow2(low)
    ensures OrBits(n, a, b) == a + b
  {
    if n > 0 {
      if low > 0 {
        HalvesOfMultiple(a, Pow2(low - 1));
        OrBitsDisjoint(n - 1, low - 1, a / 2, b / 2);
      } else {
        OrBitsDisjoint(n - 1, 0, a / 2, 0);
      }
    }
  }

  /** `a | b` where b uses only the bits below those of a; `unit` is 4 or 16. */
  lemma OrDisjoint(a: byte, b: byte, unit: nat)
    requires unit in {4, 16} && a % unit == 0 && b < unit
    ensures Or(a, b) == a + b
  {
    Pow2Of8();
    assert Pow2(2) == 4 && Pow2(4) == 16;
    OrBitsDisjoint(8, if unit == 4 then 2 else 4, a, b);
  }
}
