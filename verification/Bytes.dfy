/** Bytes as numbers, and exclusive or on them. */
module Bytes {

  type Byte = b: int | 0 <= b < 256

  /** Exclusive or, bit by bit. */
  function XorNat(a: nat, b: nat): nat
    decreases a + b
  {
    if a == 0 && b == 0 then 0 else 2 * XorNat(a / 2, b / 2) + if a % 2 == b % 2 then 0 else 1
  }

  lemma {:induction false} XorBound(a: nat, b: nat, k: nat)
    requires a < Pow2(k) && b < Pow2(k)
    ensures XorNat(a, b) < Pow2(k)
    decreases k
  {
    if k > 0 {
      XorBound(a / 2, b / 2, k - 1);
    }
  }

  function Pow2(k: nat): nat {
    if k == 0 then 1 else 2 * Pow2(k - 1)
  }

  lemma Pow2Of8()
    ensures Pow2(8) == 256
  {
    assert Pow2(4) == 16;
    assert Pow2(6) == 64;
  }

  function Xor(a: Byte, b: Byte): Byte {
    Pow2Of8();
    XorBound(a, b, 8);
    XorNat(a, b)
  }

  lemma XorStep(h: nat, p: nat, a: nat, b: nat)
    requires p < 2 && a == 2 * h + p
    ensures XorNat(a, b) == 2 * XorNat(h, b / 2) + if p == b % 2 then 0 else 1
  {
    assert a / 2 == h && a % 2 == p;
    if a == 0 && b == 0 {
      assert XorNat(0, 0) == 0;
    }
  }

  lemma {:induction false} XorNatTwice(a: nat, b: nat)
    ensures XorNat(XorNat(a, b), b) == a
    decreases a + b
  {
    hide XorNat;
    if a != 0 || b != 0 {
      var h, p := XorNat(a / 2, b / 2), if a % 2 == b % 2 then 0 else 1;
      XorStep(a / 2, a % 2, a, b);
      XorNatTwice(a / 2, b / 2);
      XorStep(h, p, XorNat(a, b), b);
    } else {
      XorStep(0, 0, 0, 0);
      XorStep(0, 0, XorNat(0, 0), 0);
    }
  }

  /** Bit k, counted from the lowest. */
  function BitOf(n: nat, k: nat): nat {
    if k == 0 then n % 2 else BitOf(n / 2, k - 1)
  }

  /** Each bit is set where just one of the two is. */
  lemma {:induction false} XorBits(a: nat, b: nat, k: nat)
    ensures BitOf(XorNat(a, b), k) == if BitOf(a, k) == BitOf(b, k) then 0 else 1
    decreases k
  {
    hide XorNat;
    XorStep(a / 2, a % 2, a, b);
    if k > 0 {
      XorBits(a / 2, b / 2, k - 1);
    }
  }

  lemma {:induction false} XorNatZero(a: nat)
    ensures XorNat(a, 0) == a
  {
    if a > 0 {
      XorNatZero(a / 2);
    }
  }

  /** Masking twice with the same byte is masking not at all. */
  lemma XorTwice(a: Byte, b: Byte)
    ensures Xor(Xor(a, b), b) == a
  {
    XorNatTwice(a, b);
  }

  lemma XorZero(a: Byte)
    ensures Xor(a, 0) == a
  {
    XorNatZero(a);
  }
}
