/**
 * The lookup tables of gf256_ctx and the loops that fill them. Each table is proved to hold the
 * field operation it stands for, so every later use of a table is a use of the field.
 */
module Gf256Tables {
  import opened Bytes
  import opened Gf256

  class Gf256Ctx {
    const expTable: array<Byte>
    const logTable: array<nat>
    // Row y of a table holds the results for the operand y.
    const mulTable: array2<Byte>
    const divTable: array2<Byte>
    const invTable: array<Byte>
    const loTable: array2<Byte>
    const hiTable: array2<Byte>

    /** The tables are separate buffers of the sizes the source declares. */
    ghost predicate Shape()
    {
      && expTable.Length == 1025 && logTable.Length == 256 && invTable.Length == 256
      && mulTable.Length0 == mulTable.Length1 == 256
      && divTable.Length0 == divTable.Length1 == 256
      && loTable.Length0 == hiTable.Length0 == 256
      && loTable.Length1 == hiTable.Length1 == 16
      && expTable != invTable
      && mulTable != divTable && mulTable != loTable && mulTable != hiTable
      && divTable != loTable && divTable != hiTable && loTable != hiTable
    }

    ghost predicate ExpValid(n: nat)
      requires Shape() && n <= 1025
      reads expTable
    {
      forall k: nat {:trigger expTable[k]} {:trigger Exp(k)} :: k < n ==> expTable[k] == Exp(k)
    }

    ghost predicate LogValid()
      requires Shape()
      reads logTable
    {
      forall a: nat :: 1 <= a < 256 ==> 1 <= logTable[a] <= 255 && Exp(logTable[a]) == a
    }

    ghost predicate ProductsValid()
      requires Shape()
      reads mulTable
    {
      forall y: nat, x: nat :: y < 256 && x < 256 ==> mulTable[y, x] == Mul(x, y)
    }

    ghost predicate QuotientsValid()
      requires Shape()
      reads divTable
    {
      forall y: nat, x: nat :: y < 256 && x < 256 ==> divTable[y, x] == Div(x, y)
    }

    ghost predicate InversesValid()
      requires Shape()
      reads invTable
    {
      forall x: nat :: x < 256 ==> invTable[x] == Inv(x)
    }

    ghost predicate NibblesValid()
      requires Shape()
      reads loTable, hiTable
    {
      && (forall y: nat, n: nat :: y < 256 && n < 16 ==> loTable[y, n] == Mul(n, y))
      && (forall y: nat, n: nat :: y < 256 && n < 16 ==> hiTable[y, n] == Mul(16 * n, y))
    }

    /** What gf256_init_ establishes. */
    ghost predicate Valid()
      reads mulTable, divTable, invTable, loTable, hiTable
    {
      Shape() && ProductsValid() && QuotientsValid() && InversesValid() && NibblesValid()
    }

    constructor ()
      ensures Valid()
      ensures fresh(mulTable) && fresh(divTable) && fresh(invTable) && fresh(loTable) && fresh(hiTable)
    {
      expTable := new Byte[1025];
      logTable := new nat[256];
      mulTable := new Byte[256, 256];
      divTable := new Byte[256, 256];
      invTable := new Byte[256];
      loTable := new Byte[256, 16];
      hiTable := new Byte[256, 16];
      new;
      ExpLogInit();
      MulDivInit();
      InvInit();
      MulAddMemInit();
    }

    /** gf256_explog_init: walk the powers of 2, recording each exponent at the byte it reaches. */
    method ExpLogInit()
      requires Shape()
      modifies expTable, logTable
      ensures ExpValid(511) && LogValid()
    {
      hide Exp, Times2;
      FirstPowers();
      logTable[0] := 512;
      expTable[0] := 1;
      for j := 1 to 255
        invariant ExpValid(j)
        invariant forall k: nat {:trigger Exp(k)} :: 1 <= k < j ==> logTable[Exp(k)] == k
      {
        ExpStep(j);
        expTable[j] := Times2(expTable[j - 1]);
        DistinctPowers(j);
        logTable[expTable[j]] := j;
      }
      ExpMod(0);
      expTable[255] := expTable[0];
      DistinctPowers(255);
      logTable[expTable[255]] := 255;
      LogsComplete();
      ExpTail();
    }

    /** Every nonzero byte was reached, so every one of its table entries was written. */
    lemma LogsComplete()
      requires Shape()
      requires forall k: nat {:trigger Exp(k)} :: 1 <= k < 256 ==> logTable[Exp(k)] == k
      ensures LogValid()
    {
      hide Exp;
      ExpMod(0);
      FirstPowers();
      forall a: nat | 1 <= a < 256
        ensures 1 <= logTable[a] <= 255 && Exp(logTable[a]) == a
      {
        var k := if Log(a) == 0 then 255 else Log(a);
        assert Exp(k) == a;
      }
    }

    /** The second period of the exponent table, which spares a reduction modulo 255. */
    method ExpTail()
      requires Shape() && ExpValid(256)
      modifies expTable
      ensures ExpValid(511)
    {
      hide Exp;
      for j := 256 to 510
        invariant ExpValid(j)
      {
        assert j % 255 == j - 255;
        ExpMod(j - 255);
        expTable[j] := expTable[j % 255];
      }
      ExpMod(0);
      expTable[510] := 1;
      for j := 511 to 1020
        invariant ExpValid(511)
      {
        expTable[j] := 0;
      }
    }

    /** gf256_muldiv_init: products and quotients from sums and differences of logarithms. */
    method MulDivInit()
      requires Shape() && ExpValid(511) && LogValid()
      modifies mulTable, divTable
      ensures ProductsValid() && QuotientsValid()
    {
      hide Exp, Mul, Div;
      for x := 0 to 256
        invariant forall i: nat :: i < x ==> mulTable[0, i] == 0 && divTable[0, i] == 0
      {
        mulTable[0, x] := 0;
        divTable[0, x] := 0;
      }
      ZeroOperand();
      for y := 1 to 256
        invariant forall r: nat, x: nat :: r < y && x < 256 ==> mulTable[r, x] == Mul(x, r)
        invariant forall r: nat, x: nat :: r < y && x < 256 ==> divTable[r, x] == Div(x, r)
      {
        FillRow(y);
      }
    }

    method FillRow(y: nat)
      requires Shape() && ExpValid(511) && LogValid() && 1 <= y < 256
      modifies mulTable, divTable
      ensures forall r: nat, x: nat :: r < 256 && x < 256 && r != y ==> mulTable[r, x] == old(mulTable[r, x])
      ensures forall r: nat, x: nat :: r < 256 && x < 256 && r != y ==> divTable[r, x] == old(divTable[r, x])
      ensures forall x: nat :: x < 256 ==> mulTable[y, x] == Mul(x, y)
      ensures forall x: nat :: x < 256 ==> divTable[y, x] == Div(x, y)
    {
      hide Exp, Mul, Div;
      ZeroOperand();
      var logY := logTable[y];
      var logYn := 255 - logY;
      mulTable[y, 0] := 0;
      divTable[y, 0] := 0;
      for x := 1 to 256
        invariant forall r: nat, x: nat :: r < 256 && x < 256 && r != y ==> mulTable[r, x] == old(mulTable[r, x])
        invariant forall r: nat, x: nat :: r < 256 && x < 256 && r != y ==> divTable[r, x] == old(divTable[r, x])
        invariant forall i: nat :: i < x ==> mulTable[y, i] == Mul(i, y)
        invariant forall i: nat :: i < x ==> divTable[y, i] == Div(i, y)
      {
        var logX := logTable[x];
        ProductOfLogs(x, y, logX, logY);
        mulTable[y, x] := expTable[logX + logY];
        divTable[y, x] := expTable[logX + logYn];
      }
    }

    /** gf256_inv_init. */
    method InvInit()
      requires Shape() && QuotientsValid()
      modifies invTable
      ensures InversesValid()
    {
      hide Inv, Mul;
      for x := 0 to 256
        invariant forall i: nat :: i < x ==> invTable[i] == Inv(i)
      {
        MulOne(Inv(x));
        invTable[x] := Quotient(1, x);
      }
    }

    /** gf256_muladd_mem_init: partial products of the low and the high half of a byte. */
    method MulAddMemInit()
      requires Shape() && ProductsValid()
      modifies loTable, hiTable
      ensures NibblesValid()
    {
      hide Mul;
      for y := 0 to 256
        invariant forall r: nat, n: nat :: r < y && n < 16 ==> loTable[r, n] == Mul(n, r)
        invariant forall r: nat, n: nat :: r < y && n < 16 ==> hiTable[r, n] == Mul(16 * n, r)
      {
        for x := 0 to 16
          invariant forall r: nat, n: nat :: r < y && n < 16 ==> loTable[r, n] == Mul(n, r)
          invariant forall r: nat, n: nat :: r < y && n < 16 ==> hiTable[r, n] == Mul(16 * n, r)
          invariant forall n: nat :: n < x ==> loTable[y, n] == Mul(n, y) && hiTable[y, n] == Mul(16 * n, y)
        {
          loTable[y, x] := Product(x, y);
          hiTable[y, x] := Product(16 * x, y);
        }
      }
    }

    /** gf256_mul. */
    function Product(x: Byte, y: Byte): (r: Byte)
      requires Shape() && ProductsValid()
      reads mulTable
      ensures r == Mul(x, y)
    {
      mulTable[y, x]
    }

    /** gf256_div: a zero divisor yields 0. */
    function Quotient(x: Byte, y: Byte): (r: Byte)
      requires Shape() && QuotientsValid()
      reads divTable
      ensures r == Div(x, y)
    {
      divTable[y, x]
    }

    /** gf256_inv. */
    function Inverse(x: Byte): (r: Byte)
      requires Shape() && InversesValid()
      reads invTable
      ensures r == Inv(x)
    {
      invTable[x]
    }
  }

  lemma ZeroOperand()
    ensures forall x: Byte :: Mul(x, 0) == 0 && Mul(0, x) == 0
    ensures forall x: Byte :: Div(x, 0) == 0 && Div(0, x) == 0
  {
    hide Mul;
    InvZero();
    forall x: Byte
      ensures Mul(x, 0) == 0 && Mul(0, x) == 0
      ensures Div(x, 0) == 0 && Div(0, x) == 0
    {
      MulZero(x);
      MulZero(Inv(x));
    }
  }

  lemma ExpStep(j: nat)
    requires j > 0
    ensures Times2(Exp(j - 1)) == Exp(j)
  {
  }

  lemma DistinctPowers(j: nat)
    requires j <= 255
    ensures forall k: nat {:trigger Exp(k)} :: 1 <= k < j ==> Exp(k) != Exp(j)
  {
    hide Exp;
    ExpMod(0);
    forall k: nat {:trigger Exp(k)} | 1 <= k < j
      ensures Exp(k) != Exp(j)
    {
      if j == 255 {
        FirstPowers();
        ExpInjective(0, k);
      } else {
        ExpInjective(k, j);
      }
    }
  }
}
