/** The field GF(256) on bytes as numbers. */
module Gf256 {
  import opened Bytes
  import B = Gf256Bits

  /**
   * One step of the exponent table, gf256_explog_init: double, and reduce by the polynomial
   * (GF256_GEN_POLY[3] << 1) | 1 = 0x14d on overflow. Its ninth bit cancels the overflowing bit.
   */
  function Times2(a: Byte): Byte
  {
    if 2 * a >= 256 then Add(2 * a - 256, 0x4d) else 2 * a
  }

  lemma Times2Bits(a: Byte)
    ensures Bits(Times2(a)) == B.Times2(Bits(a))
  {
    hide B.Add, Add;
    B.DoubleInt(Bits(a));
    BitsOfInt(B.Double(Bits(a)));
    BitsOfInt(0x4d);
    BitsOfAdd(B.Double(Bits(a)) as int, 0x4d);
  }

  /** The n-th power of 2. */
  function Exp(n: nat): (e: Byte)
  {
    if n == 0 then 1 else Times2(Exp(n - 1))
  }

  lemma {:induction false} ExpBits(n: nat)
    ensures Bits(Exp(n)) == B.Exp(n)
  {
    hide Times2, B.Times2;
    if n == 0 {
      BitsOfInt(1);
    } else {
      ExpBits(n - 1);
      Times2Bits(Exp(n - 1));
    }
  }

  ghost function Mul(a: Byte, b: Byte): (r: Byte)
  {
    BitsOfInt(B.Mul(Bits(a), Bits(b)));
    B.Mul(Bits(a), Bits(b)) as int
  }

  /** The inverse; the tables of the source put 0 at 0. */
  ghost function Inv(a: Byte): (r: Byte)
  {
    BitsOfInt(B.Inv(Bits(a)));
    B.Inv(Bits(a)) as int
  }

  ghost function Div(a: Byte, b: Byte): (r: Byte)
  {
    Mul(a, Inv(b))
  }

  lemma BitsOfMul(a: Byte, b: Byte)
    ensures Bits(Mul(a, b)) == B.Mul(Bits(a), Bits(b))
  {
    BitsOfInt(B.Mul(Bits(a), Bits(b)));
  }

  /** Multiplying by 2 is a shift, reduced by the polynomial x^8 + x^6 + x^3 + x^2 + 1. With the field laws
   * below this determines every product. */
  lemma MulTwo(a: Byte)
    ensures Mul(2, a) == if a < 128 then 2 * a else Add(2 * a - 256, 77)
    ensures Mul(1, a) == a
  {
    hide B.Mul, B.Times2, Bits;
    TwoBits(Bits(a));
    BitsOfTwo();
    Times2Bits(a);
    ZeroBits(1);
    B.MulOne(Bits(a));
  }

  lemma BitsOfTwo()
    ensures Bits(2) == 2
  {
    BitsOfInt(2);
  }

  lemma TwoBits(a: B.Octet)
    ensures B.Mul(2, a) == B.Times2(a)
  {
    B.LogOfExp(1);
    assert B.Exp(1) == 2;
    assert B.Shift(a, 1) == B.Times2(B.Shift(a, 0));
  }

  lemma ZeroBits(a: Byte)
    ensures Bits(a) == 0 <==> a == 0
    ensures Bits(1) == 1
  {
    BitsOfInt(0);
    BitsOfInt(1);
  }

  lemma MulNonzero(a: Byte, b: Byte)
    ensures Mul(a, b) == 0 <==> a == 0 || b == 0
  {
    hide B.Mul, Bits;
    B.MulNonzero(Bits(a), Bits(b));
    ZeroBits(a);
    ZeroBits(b);
    ZeroBits(Mul(a, b));
    BitsOfMul(a, b);
  }

  lemma MulZero(a: Byte)
    ensures Mul(a, 0) == 0 && Mul(0, a) == 0
  {
    MulNonzero(a, 0);
    MulNonzero(0, a);
  }

  lemma MulComm(a: Byte, b: Byte)
    ensures Mul(a, b) == Mul(b, a)
  {
    B.MulComm(Bits(a), Bits(b));
  }

  lemma MulAssoc(a: Byte, b: Byte, c: Byte)
    ensures Mul(Mul(a, b), c) == Mul(a, Mul(b, c))
  {
    hide B.Mul, Bits;
    BitsOfMul(a, b);
    BitsOfMul(b, c);
    B.MulAssoc(Bits(a), Bits(b), Bits(c));
  }

  lemma MulOne(a: Byte)
    ensures Mul(a, 1) == a && Mul(1, a) == a
  {
    hide B.Mul, Bits;
    ZeroBits(a);
    B.MulOne(Bits(a));
  }

  lemma MulInv(a: Byte)
    requires a != 0
    ensures Inv(a) != 0 && Mul(a, Inv(a)) == 1 && Mul(Inv(a), a) == 1
  {
    hide B.Mul, B.Inv, Bits;
    ZeroBits(a);
    B.MulInv(Bits(a));
    BitsOfInt(B.Inv(Bits(a)));
    ZeroBits(Inv(a));
    MulComm(a, Inv(a));
  }

  lemma InvZero()
    ensures Inv(0) == 0
  {
    ZeroBits(0);
  }

  lemma MulAdd(a: Byte, b: Byte, c: Byte)
    ensures Mul(a, Add(b, c)) == Add(Mul(a, b), Mul(a, c))
    ensures Mul(Add(b, c), a) == Add(Mul(b, a), Mul(c, a))
  {
    hide B.Mul, B.Add, Bits;
    BitsOfAdd(b, c);
    BitsOfMul(a, b);
    BitsOfMul(a, c);
    B.MulAdd(Bits(a), Bits(b), Bits(c));
    MulComm(a, Add(b, c));
    MulComm(a, b);
    MulComm(a, c);
  }

  /** The discrete logarithm to base 2 of a nonzero byte. */
  ghost function Log(a: Byte): (k: nat)
    requires a != 0
    ensures k < 255 && Exp(k) == a
  {
    ZeroBits(a);
    ExpBits(B.Log(Bits(a)));
    B.Log(Bits(a))
  }

  lemma FirstPowers()
    ensures Exp(0) == 1
  {
  }

  lemma ExpMod(n: nat)
    ensures Exp(255) == 1 && Exp(510) == 1 && Exp(n + 255) == Exp(n)
  {
    hide Exp, Bits;
    ExpBits(255);
    ExpBits(510);
    ExpBits(n);
    ExpBits(n + 255);
    B.Period();
    B.ExpPeriodic(255, 1, n);
    B.ExpPeriodic(255, 2, 0);
    ZeroBits(1);
    B.FirstPowers();
  }

  lemma ExpInjective(i: nat, j: nat)
    requires i < j < 255
    ensures Exp(i) != Exp(j)
  {
    hide Exp, Bits;
    ExpBits(i);
    ExpBits(j);
    B.ExpInjective(i, j);
  }

  /** Adding logarithms multiplies, adding the complement divides. */
  lemma ProductOfLogs(a: Byte, b: Byte, i: nat, j: nat)
    requires a != 0 && b != 0 && Exp(i) == a && Exp(j) == b && j <= 255
    ensures Exp(i + j) == Mul(a, b)
    ensures Exp(i + (255 - j)) == Div(a, b)
  {
    hide Exp, B.Exp, B.Mul, Bits;
    ExpBits(i);
    ExpBits(j);
    ExpBits(i + j);
    ExpBits(i + (255 - j));
    ExpBits(255 - j);
    B.MulExp(i, j);
    B.MulExp(i, 255 - j);
    ZeroBits(b);
    B.InvOfExp(j);
    BitsOfInt(B.Inv(Bits(b)));
    BitsOfInt(B.Mul(Bits(a), Bits(b)));
  }
}
