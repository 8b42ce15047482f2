/**
 * The field GF(256) of 3rdparty/cm256cc on bit vectors: octets under exclusive or, multiplied
 * through the powers of 2 modulo the polynomial 0x14d. Modules Bytes and Gf256 carry the results
 * over to bytes as numbers, which is what the tables and block indices of the source use.
 */
module Gf256Bits {

  type Octet = bv8

  /** The exclusive or of the C++ code, gf256_add. */
  function Add(a: Octet, b: Octet): Octet { a ^ b }

  lemma AddComm(a: Octet, b: Octet)
    ensures Add(a, b) == Add(b, a)
  {
  }

  lemma AddAssoc(a: Octet, b: Octet, c: Octet)
    ensures Add(Add(a, b), c) == Add(a, Add(b, c))
  {
  }

  lemma AddZero(a: Octet)
    ensures Add(a, 0) == a && Add(0, a) == a && Add(a, a) == 0
  {
  }

  /** Adding the same byte twice leaves the other operand. */
  lemma AddCancel(a: Octet, b: Octet)
    ensures Add(Add(a, b), b) == a
    ensures Add(a, b) == 0 <==> a == b
  {
    hide Add;
    AddAssoc(a, b, b);
    AddZero(a);
    AddZero(b);
  }

  /** (a + b) + (c + d) = (a + c) + (b + d). */
  lemma AddSwap(a: Octet, b: Octet, c: Octet, d: Octet)
    ensures Add(Add(a, b), Add(c, d)) == Add(Add(a, c), Add(b, d))
  {
    hide Add;
    AddAssoc(a, b, Add(c, d));
    AddAssoc(b, c, d);
    AddComm(b, c);
    AddAssoc(c, b, d);
    AddAssoc(a, c, Add(b, d));
  }

  lemma Successor(b: Octet)
    requires b as int < 255
    ensures (b + 1) as int == b as int + 1
  {
  }

  lemma SameOctet(a: Octet, b: Octet)
    requires a as int == b as int
    ensures a == b
  {
    assert (a as int) as bv8 == a;
    assert (b as int) as bv8 == b;
  }

  /** The two halves of an octet, as the 16-entry tables of the bulk kernels see them. */
  lemma Halves(a: Octet)
    ensures ((a & 15) as int) == (a as int) % 16
    ensures ((a & 240) as int) == 16 * ((a as int) / 16)
    ensures Add(a & 15, a & 240) == a
  {
  }

  // ---------------------------------------------------------------- doubling

  /** The bits that a left shift by one keeps. */
  function Double(a: Octet): Octet { a << 1 }

  predicate Overflows(a: Octet) { a & 0x80 != 0 }

  /**
   * One step of the exponent table: double, and reduce on overflow. The polynomial is
   * (GF256_GEN_POLY[3] << 1) | 1 = 0x14d; its ninth bit cancels the bit that overflowed.
   */
  function Times2(a: Octet): Octet
  {
    if Overflows(a) then Add(Double(a), 0x4d) else Double(a)
  }

  lemma OverflowsAdd(a: Octet, b: Octet)
    ensures Overflows(Add(a, b)) <==> Overflows(a) != Overflows(b)
  {
    assert (a ^ b) & 0x80 != 0 <==> (a & 0x80 != 0) != (b & 0x80 != 0);
  }

  lemma DoubleAdd(a: Octet, b: Octet)
    ensures Double(Add(a, b)) == Add(Double(a), Double(b))
  {
    assert (a ^ b) << 1 == (a << 1) ^ (b << 1);
  }

  /** On numbers, the shift doubles and drops 256 exactly when the top bit is set. */
  lemma DoubleInt(a: Octet)
    ensures Double(a) as int == if 2 * (a as int) >= 256 then 2 * (a as int) - 256 else 2 * (a as int)
    ensures Overflows(a) <==> 2 * (a as int) >= 256
  {
  }

  /** Doubling is linear. */
  lemma Times2Add(a: Octet, b: Octet)
    ensures Times2(Add(a, b)) == Add(Times2(a), Times2(b))
  {
    hide Add, Double, Overflows;
    OverflowsAdd(a, b);
    DoubleAdd(a, b);
    var c, d, p: Octet := Double(a), Double(b), 0x4d;
    AddSwap(c, p, d, p);
    AddZero(p);
    AddZero(Add(c, d));
    AddAssoc(c, p, d);
    AddAssoc(c, d, p);
    AddComm(p, d);
  }

  lemma Times2Zero(a: Octet)
    ensures Times2(a) == 0 <==> a == 0
  {
  }

  /** a doubled n times. */
  function Shift(a: Octet, n: nat): Octet
  {
    if n == 0 then a else Times2(Shift(a, n - 1))
  }

  lemma {:induction false} ShiftShift(a: Octet, m: nat, n: nat)
    ensures Shift(a, m + n) == Shift(Shift(a, m), n)
  {
    hide Times2;
    if n > 0 {
      ShiftShift(a, m, n - 1);
    }
  }

  lemma {:induction false} ShiftAdd(a: Octet, b: Octet, n: nat)
    ensures Shift(Add(a, b), n) == Add(Shift(a, n), Shift(b, n))
  {
    hide Times2, Add;
    if n > 0 {
      ShiftAdd(a, b, n - 1);
      Times2Add(Shift(a, n - 1), Shift(b, n - 1));
    }
  }

  lemma {:induction false} ShiftZero(a: Octet, n: nat)
    ensures Shift(a, n) == 0 <==> a == 0
  {
    hide Times2;
    if n > 0 {
      ShiftZero(a, n - 1);
      Times2Zero(Shift(a, n - 1));
    }
  }

  // ---------------------------------------------------------------- powers of two

  /** The n-th power of the generator 2. */
  function Exp(n: nat): Octet
  {
    Shift(1, n)
  }

  lemma ExpAdd(m: nat, n: nat)
    ensures Exp(m + n) == Shift(Exp(m), n)
  {
    ShiftShift(1, m, n);
  }

  function Times2To4(a: Octet): Octet
  {
    Times2(Times2(Times2(Times2(a))))
  }

  lemma ShiftBy16(a: Octet)
    ensures Shift(a, 16) == Times2To4(Times2To4(Times2To4(Times2To4(a))))
  {
    ShiftBy4(a);
    ShiftBy4(Times2To4(a));
    ShiftBy4(Times2To4(Times2To4(a)));
    ShiftBy4(Times2To4(Times2To4(Times2To4(a))));
    ShiftShift(a, 4, 4);
    ShiftShift(a, 8, 4);
    ShiftShift(a, 12, 4);
  }

  lemma ShiftBy4(a: Octet)
    ensures Shift(a, 4) == Times2To4(a)
  {
    assert Shift(a, 1) == Times2(a);
    assert Shift(a, 2) == Times2(Times2(a));
    assert Shift(a, 3) == Times2(Times2(Times2(a)));
  }

  /** One stretch of sixteen entries of the exponent table. */
  lemma Stretch(n: nat, from: Octet, to: Octet)
    requires Exp(n) == from
    requires Times2To4(Times2To4(Times2To4(Times2To4(from)))) == to
    ensures Exp(n + 16) == to
  {
    hide Times2To4, Times2;
    ExpAdd(n, 16);
    ShiftBy16(from);
  }

  lemma ShortStretch(n: nat, from: Octet, to: Octet)
    requires Exp(n) == from && Times2To4(from) == to
    ensures Exp(n + 4) == to
  {
    hide Times2To4, Times2;
    ExpAdd(n, 4);
    ShiftBy4(from);
  }

  lemma Quarter0()
    ensures Exp(16) == 248 && Exp(48) == 20 && Exp(64) == 235
  {
    Stretch(0, 1, 248);
    Stretch(16, 248, 227);
    Stretch(32, 227, 20);
    Stretch(48, 20, 235);
  }

  lemma Quarter1()
    requires Exp(64) == 235
    ensures Exp(80) == 122 && Exp(128) == 171
  {
    Stretch(64, 235, 122);
    Stretch(80, 122, 93);
    Stretch(96, 93, 218);
    Stretch(112, 218, 171);
  }

  lemma Quarter2()
    requires Exp(128) == 171
    ensures Exp(192) == 181
  {
    Stretch(128, 171, 221);
    Stretch(144, 221, 217);
    Stretch(160, 217, 238);
    Stretch(176, 238, 181);
  }

  lemma Quarter3()
    requires Exp(192) == 181
    ensures Exp(256) == 2
  {
    Stretch(192, 181, 229);
    Stretch(208, 229, 158);
    Stretch(224, 158, 59);
    Stretch(240, 59, 2);
  }

  /** The entries of the exponent table that decide the order of 2. */
  lemma ExpMilestones()
    ensures Exp(16) == 248 && Exp(52) == 13 && Exp(88) == 224 && Exp(256) == 2
  {
    Quarter0();
    Quarter1();
    Quarter2();
    Quarter3();
    ShortStretch(48, 20, 13);
    ShortStretch(80, 122, 14);
    ShortStretch(84, 14, 224);
  }

  // ---------------------------------------------------------------- order and logarithm

  lemma Times2Injective(a: Octet, b: Octet)
    requires Times2(a) == Times2(b)
    ensures a == b
  {
    hide Times2;
    Times2Add(a, b);
    AddCancel(Times2(a), Times2(b));
    Times2Zero(Add(a, b));
    AddCancel(a, b);
  }

  lemma Period()
    ensures Exp(255) == 1
  {
    ExpMilestones();
    hide Times2;
    assert Times2(Exp(255)) == Exp(256);
    assert Times2(1) == 2 by { assert Exp(1) == 2 by { FirstPowers(); } }
    Times2Injective(Exp(255), 1);
  }

  lemma FirstPowers()
    ensures Exp(0) == 1 && Exp(1) == 2 && Exp(2) == 4 && Exp(3) == 8
  {
  }

  /** If the d-th power is 1 then exponents count modulo d. */
  lemma {:induction false} ExpPeriodic(d: nat, q: nat, r: nat)
    requires Exp(d) == 1
    ensures Exp(q * d + r) == Exp(r)
    decreases q
  {
    if q > 0 {
      assert q * d + r == d + ((q - 1) * d + r);
      ExpAdd(d, (q - 1) * d + r);
      ExpPeriodic(d, q - 1, r);
    }
  }

  /** No positive exponent below 255 gives 1: by Euclid, the least one would divide 15, 51 or 85. */
  lemma {:induction false} Order(d: nat)
    requires 0 < d < 255
    ensures Exp(d) != 1
    decreases d
  {
    if Exp(d) == 1 {
      Period();
      var q, r := 255 / d, 255 % d;
      assert q * d + r == 255;
      ExpPeriodic(d, q, r);
      if r > 0 {
        Order(r);
      } else {
        OrderOfDivisor(d, q);
      }
    }
  }

  /** A proper divisor of 255 divides 15, 51 or 85, none of which is a period. */
  lemma OrderOfDivisor(d: nat, q: nat)
    requires d * q == 255 && 1 < q
    ensures Exp(d) != 1
  {
    NotPeriods();
    var k, m := ProperDivisor(d, q);
    if Exp(d) == 1 {
      ExpPeriodic(d, k, 0);
    }
  }

  lemma NotPeriods()
    ensures Exp(15) != 1 && Exp(51) != 1 && Exp(85) != 1
  {
    hide Times2;
    ExpMilestones();
    FirstPowers();
    ExpAdd(15, 1);
    ExpAdd(51, 1);
    ExpAdd(85, 3);
  }

  lemma ProperDivisor(d: nat, q: nat) returns (k: nat, m: nat)
    requires d * q == 255 && 1 < q
    ensures k * d + 0 == m && m in {15, 51, 85}
  {
    if q < 16 {
      assert q == 2 || q == 3 || q == 4 || q == 5 || q == 6 || q == 7 || q == 8 || q == 9
        || q == 10 || q == 11 || q == 12 || q == 13 || q == 14 || q == 15;
      assert d == 85 || d == 51 || d == 17;
      k := if d == 17 then 3 else 1;
      m := if d == 17 then 51 else d;
    } else {
      assert d < 16;
      assert d == 1 || d == 2 || d == 3 || d == 4 || d == 5 || d == 6 || d == 7 || d == 8 || d == 9
        || d == 10 || d == 11 || d == 12 || d == 13 || d == 14 || d == 15;
      assert d == 1 || d == 3 || d == 5 || d == 15;
      k := if d == 1 then 15 else if d == 3 then 5 else if d == 5 then 3 else 1;
      m := 15;
    }
  }

  lemma ExpInjective(i: nat, j: nat)
    requires i < j < 255
    ensures Exp(i) != Exp(j)
  {
    if Exp(i) == Exp(j) {
      ExpAdd(j, 255 - i);
      ExpAdd(i, 255 - i);
      Period();
      ExpPeriodic(255, 1, j - i);
      Order(j - i);
    }
  }

  lemma ExpNonzero(n: nat)
    ensures Exp(n) != 0
  {
    ShiftZero(1, n);
  }

  /** The values of the first n entries of the exponent table. */
  ghost function Powers(n: nat): (s: set<int>)
  {
    if n == 0 then {} else Powers(n - 1) + {Exp(n - 1) as int}
  }

  lemma {:induction false} PowersAre(n: nat, v: int)
    ensures v in Powers(n) <==> exists k: nat {:trigger Exp(k)} :: k < n && Exp(k) as int == v
  {
    hide Exp;
    if n > 0 {
      PowersAre(n - 1, v);
    }
  }

  lemma {:induction false} PowersCount(n: nat)
    requires n <= 255
    ensures |Powers(n)| == n && (forall v :: v in Powers(n) ==> 1 <= v <= 255)
  {
    hide Exp;
    if n > 0 {
      PowersCount(n - 1);
      ExpNonzero(n - 1);
      var e := Exp(n - 1) as int;
      NonzeroOctet(Exp(n - 1));
      if e in Powers(n - 1) {
        PowersAre(n - 1, e);
        var k: nat {:trigger Exp(k)} :| k < n - 1 && Exp(k) as int == e;
        SameOctet(Exp(k), Exp(n - 1));
        ExpInjective(k, n - 1);
      }
    }
  }

  lemma NonzeroOctet(b: Octet)
    requires b != 0
    ensures 1 <= b as int < 256
  {
    assert (b as int) as bv8 == b;
  }

  lemma {:induction false} AtMost(s: set<int>, n: nat)
    requires forall v :: v in s ==> 1 <= v <= n
    ensures |s| <= n
  {
    if n > 0 {
      AtMost(s - {n}, n - 1);
    } else {
      assert forall v :: v !in s;
      assert s == {};
    }
  }

  ghost predicate IsLog(a: Octet, k: nat)
  {
    k < 255 && Exp(k) == a
  }

  /** 2 generates: each of the 255 nonzero bytes is a power of 2, by counting. */
  lemma Generates(a: Octet)
    requires a != 0
    ensures exists k: nat :: IsLog(a, k)
  {
    hide Exp, Powers;
    AllReached(a);
    PowersAre(255, a as int);
    var k: nat {:trigger Exp(k)} :| k < 255 && Exp(k) as int == a as int;
    SameOctet(Exp(k), a);
    assert IsLog(a, k);
  }

  lemma AllReached(a: Octet)
    requires a != 0
    ensures a as int in Powers(255)
  {
    hide Powers;
    var v, reached := a as int, Powers(255);
    PowersCount(255);
    NonzeroOctet(a);
    if v !in reached {
      AtMost(reached + {v}, 255);
    }
  }

  /** The discrete logarithm to base 2 of a nonzero byte. */
  ghost function Log(a: Octet): (k: nat)
    requires a != 0
    ensures k < 255 && Exp(k) == a
  {
    Generates(a);
    var k: nat :| IsLog(a, k);
    k
  }

  lemma LogOfExp(n: nat)
    ensures Exp(n) != 0 && Log(Exp(n)) == n % 255
  {
    hide Exp;
    ExpNonzero(n);
    Period();
    ExpPeriodic(255, n / 255, n % 255);
    var k := Log(Exp(n));
    if k < n % 255 {
      ExpInjective(k, n % 255);
    } else if n % 255 < k {
      ExpInjective(n % 255, k);
    }
  }

  // ---------------------------------------------------------------- the field

  /** The product of two bytes: b doubled as many times as a is a power of 2. */
  ghost function Mul(a: Octet, b: Octet): Octet
  {
    if a == 0 then 0 else Shift(b, Log(a))
  }

  /** The inverse; the tables of the source put 0 at 0. */
  ghost function Inv(a: Octet): Octet
  {
    if a == 0 then 0 else Exp(255 - Log(a))
  }

  ghost function Div(a: Octet, b: Octet): Octet
  {
    Mul(a, Inv(b))
  }

  /** Multiplication adds logarithms. */
  lemma MulExp(m: nat, n: nat)
    ensures Mul(Exp(m), Exp(n)) == Exp(m + n)
  {
    hide Exp;
    LogOfExp(m);
    var l := Log(Exp(m));
    ExpAdd(n, l);
    Period();
    ExpPeriodic(255, m / 255, l + n);
    assert m / 255 * 255 + (l + n) == m + n;
  }

  lemma MulZero(a: Octet)
    ensures Mul(a, 0) == 0 && Mul(0, a) == 0
  {
    if a != 0 {
      ShiftZero(0, Log(a));
    }
  }

  lemma MulNonzero(a: Octet, b: Octet)
    ensures Mul(a, b) == 0 <==> a == 0 || b == 0
  {
    MulZero(a);
    if a != 0 {
      ShiftZero(b, Log(a));
    }
  }

  lemma MulComm(a: Octet, b: Octet)
    ensures Mul(a, b) == Mul(b, a)
  {
    if a == 0 || b == 0 {
      MulZero(a);
      MulZero(b);
    } else {
      MulExp(Log(a), Log(b));
      MulExp(Log(b), Log(a));
    }
  }

  lemma MulAssoc(a: Octet, b: Octet, c: Octet)
    ensures Mul(Mul(a, b), c) == Mul(a, Mul(b, c))
  {
    hide Mul, Exp;
    if a == 0 || b == 0 || c == 0 {
      MulZero(a);
      MulZero(b);
      MulZero(c);
      MulZero(Mul(a, b));
      MulZero(Mul(b, c));
    } else {
      var i, j, k := Log(a), Log(b), Log(c);
      MulExp(i, j);
      MulExp(j, k);
      MulExp(i + j, k);
      MulExp(i, j + k);
    }
  }

  lemma MulOne(a: Octet)
    ensures Mul(a, 1) == a && Mul(1, a) == a
  {
    FirstPowers();
    MulComm(a, 1);
    LogOfExp(0);
  }

  lemma MulInv(a: Octet)
    requires a != 0
    ensures Inv(a) != 0 && Mul(a, Inv(a)) == 1 && Mul(Inv(a), a) == 1
  {
    hide Mul, Exp;
    ExpNonzero(255 - Log(a));
    MulExp(Log(a), 255 - Log(a));
    Period();
    MulComm(a, Inv(a));
  }

  lemma InvOfExp(j: nat)
    requires j <= 255
    ensures Exp(255 - j) == Inv(Exp(j))
  {
    hide Exp;
    LogOfExp(j);
    if j == 255 {
      FirstPowers();
      Period();
    }
  }

  lemma MulAdd(a: Octet, b: Octet, c: Octet)
    ensures Mul(a, Add(b, c)) == Add(Mul(a, b), Mul(a, c))
    ensures Mul(Add(b, c), a) == Add(Mul(b, a), Mul(c, a))
  {
    hide Add;
    if a != 0 {
      ShiftAdd(b, c, Log(a));
    } else {
      AddZero(0);
    }
    MulComm(a, Add(b, c));
    MulComm(a, b);
    MulComm(a, c);
  }
}
