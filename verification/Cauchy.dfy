/**
 * The algebra behind the erasure decoder: the scaled Cauchy matrix of cm256, its Schur
 * complements in the generator form of GenerateLDUDecomposition, and the three elimination
 * sweeps that solve it, one byte position ("column" of bytes) at a time.
 */
module Cauchy {
  import opened Bytes
  import opened Gf256

  // ---------------------------------------------------------------- products and quotients

  /** (ab)(cd) = (ac)(bd). */
  lemma MulSwap(a: Byte, b: Byte, c: Byte, d: Byte)
    ensures Mul(Mul(a, b), Mul(c, d)) == Mul(Mul(a, c), Mul(b, d))
  {
    hide Mul;
    MulAssoc(a, b, Mul(c, d));
    MulAssoc(b, c, d);
    MulComm(b, c);
    MulAssoc(c, b, d);
    MulAssoc(a, c, Mul(b, d));
  }

  lemma MulCancel(a: Byte, b: Byte, c: Byte)
    requires c != 0 && Mul(a, c) == Mul(b, c)
    ensures a == b
  {
    hide Mul, Inv;
    MulInv(c);
    MulAssoc(a, c, Inv(c));
    MulAssoc(b, c, Inv(c));
    MulOne(a);
    MulOne(b);
  }

  lemma InvMul(a: Byte, b: Byte)
    requires a != 0 && b != 0
    ensures Mul(a, b) != 0 && Inv(Mul(a, b)) == Mul(Inv(a), Inv(b))
  {
    hide Mul, Inv;
    MulNonzero(a, b);
    MulInv(a);
    MulInv(b);
    MulInv(Mul(a, b));
    MulSwap(Inv(a), Inv(b), a, b);
    MulOne(1);
    MulCancel(Inv(Mul(a, b)), Mul(Inv(a), Inv(b)), Mul(a, b));
  }

  /** A common factor of numerator and denominator cancels. */
  lemma DivCancel(a: Byte, b: Byte, c: Byte)
    requires b != 0 && c != 0
    ensures Div(Mul(a, c), Mul(b, c)) == Div(a, b)
    ensures Div(Mul(c, a), Mul(c, b)) == Div(a, b)
  {
    hide Mul, Inv;
    InvMul(b, c);
    MulSwap(a, c, Inv(b), Inv(c));
    MulInv(c);
    MulOne(Mul(a, Inv(b)));
    MulComm(a, c);
    MulComm(b, c);
  }

  /** Dividing and multiplying by the same nonzero byte. */
  lemma DivMul(a: Byte, b: Byte)
    requires b != 0
    ensures Mul(Div(a, b), b) == a && Mul(b, Div(a, b)) == a
    ensures Div(a, b) == 0 <==> a == 0
  {
    hide Mul, Inv;
    MulInv(b);
    MulAssoc(a, Inv(b), b);
    MulOne(a);
    MulComm(b, Div(a, b));
    MulNonzero(a, Inv(b));
  }

  // ---------------------------------------------------------------- the matrix

  /** getMatrixElement: the Cauchy element of row x and column y, scaled so that row x0 is all ones. */
  ghost function Element(x: Byte, x0: Byte, y: Byte): Byte
  {
    Div(Add(y, x0), Add(x, y))
  }

  lemma FirstRowIsOnes(x0: Byte, y: Byte)
    requires x0 != y
    ensures Element(x0, x0, y) == 1
  {
    hide Add, Mul, Inv;
    AddComm(x0, y);
    AddCancel(x0, y);
    MulInv(Add(x0, y));
  }

  /** No other element of a column is 0 or 1: the first product of an encoder row is never skipped. */
  lemma ElementIsProper(x: Byte, x0: Byte, y: Byte)
    requires x != y && x0 != y && x != x0
    ensures Element(x, x0, y) != 0 && Element(x, x0, y) != 1
  {
    hide Add, Mul, Inv;
    var n, d := Add(y, x0), Add(x, y);
    DistinctSum(x, y);
    DistinctSum(y, x0);
    DivMul(n, d);
    MulOne(d);
    AddComm(y, x0);
    AddCancel(x0, y);
    AddCancel(x, y);
  }

  /** Distinct rows xs and columns ys, no row byte being a column byte. */
  ghost predicate Points(xs: seq<Byte>, ys: seq<Byte>, x0: Byte)
  {
    && |xs| == |ys|
    && (forall i, j :: 0 <= i < j < |xs| ==> xs[i] != xs[j])
    && (forall i, j :: 0 <= i < j < |ys| ==> ys[i] != ys[j])
    && (forall i, j :: 0 <= i < |xs| && 0 <= j < |ys| ==> xs[i] != ys[j])
    && x0 !in ys
  }

  /** The generators after k elimination steps, g[i] and b[j] of GenerateLDUDecomposition. */
  ghost function G(xs: seq<Byte>, ys: seq<Byte>, k: nat, i: nat): Byte
    requires k <= |xs| == |ys| && i < |xs|
  {
    if k == 0 then 1
    else Mul(G(xs, ys, k - 1, i), Div(Add(xs[i], xs[k - 1]), Add(xs[i], ys[k - 1])))
  }

  ghost function H(xs: seq<Byte>, ys: seq<Byte>, k: nat, j: nat): Byte
    requires k <= |xs| == |ys| && j < |xs|
  {
    if k == 0 then 1
    else Mul(H(xs, ys, k - 1, j), Div(Add(ys[j], ys[k - 1]), Add(ys[j], xs[k - 1])))
  }

  /** The Schur complement after k steps: element (i, j) of what is left to factor, for i, j >= k. */
  ghost function S(xs: seq<Byte>, ys: seq<Byte>, x0: Byte, k: nat, i: nat, j: nat): Byte
    requires k <= |xs| == |ys| && i < |xs| && j < |xs|
  {
    Mul(Mul(G(xs, ys, k, i), H(xs, ys, k, j)), Element(xs[i], x0, ys[j]))
  }

  /** The factors: G = L D U with L and U of unit diagonal. */
  ghost function L(xs: seq<Byte>, ys: seq<Byte>, x0: Byte, i: nat, k: nat): Byte
    requires |xs| == |ys| && i < |xs| && k < |xs|
  {
    Div(S(xs, ys, x0, k, i, k), S(xs, ys, x0, k, k, k))
  }

  ghost function D(xs: seq<Byte>, ys: seq<Byte>, x0: Byte, k: nat): Byte
    requires |xs| == |ys| && k < |xs|
  {
    S(xs, ys, x0, k, k, k)
  }

  ghost function U(xs: seq<Byte>, ys: seq<Byte>, x0: Byte, k: nat, j: nat): Byte
    requires |xs| == |ys| && k < |xs| && j < |xs|
  {
    Div(S(xs, ys, x0, k, k, j), S(xs, ys, x0, k, k, k))
  }

  lemma DistinctSum(a: Byte, b: Byte)
    requires a != b
    ensures Add(a, b) != 0 && Add(b, a) != 0
  {
    AddCancel(a, b);
    AddCancel(b, a);
  }

  lemma {:induction false} GeneratorsNonzero(xs: seq<Byte>, ys: seq<Byte>, x0: Byte, k: nat, i: nat)
    requires Points(xs, ys, x0) && k <= i < |xs|
    ensures G(xs, ys, k, i) != 0 && H(xs, ys, k, i) != 0
  {
    hide Add, Mul, Inv, Div;
    if k > 0 {
      GeneratorsNonzero(xs, ys, x0, k - 1, i);
      DistinctSum(xs[i], xs[k - 1]);
      DistinctSum(xs[i], ys[k - 1]);
      DistinctSum(ys[i], ys[k - 1]);
      DistinctSum(ys[i], xs[k - 1]);
      var p := Div(Add(xs[i], xs[k - 1]), Add(xs[i], ys[k - 1]));
      var q := Div(Add(ys[i], ys[k - 1]), Add(ys[i], xs[k - 1]));
      DivMul(Add(xs[i], xs[k - 1]), Add(xs[i], ys[k - 1]));
      DivMul(Add(ys[i], ys[k - 1]), Add(ys[i], xs[k - 1]));
      MulNonzero(G(xs, ys, k - 1, i), p);
      MulNonzero(H(xs, ys, k - 1, i), q);
    }
  }

  lemma ElementNonzero(x: Byte, x0: Byte, y: Byte)
    requires x != y && x0 != y
    ensures Element(x, x0, y) != 0
  {
    hide Add, Mul, Inv;
    DistinctSum(y, x0);
    DistinctSum(x, y);
    DivMul(Add(y, x0), Add(x, y));
  }

  /** Every divisor the factorisation meets is nonzero. */
  lemma PivotNonzero(xs: seq<Byte>, ys: seq<Byte>, x0: Byte, k: nat)
    requires Points(xs, ys, x0) && k < |xs|
    ensures D(xs, ys, x0, k) != 0
  {
    hide Add, Mul, Element, G, H;
    GeneratorsNonzero(xs, ys, x0, k, k);
    ElementNonzero(xs[k], x0, ys[k]);
    var g, h := G(xs, ys, k, k), H(xs, ys, k, k);
    MulNonzero(g, h);
    MulNonzero(Mul(g, h), Element(xs[k], x0, ys[k]));
  }

  // ---------------------------------------------------------------- one elimination step

  /**
   * The identity of the Schur step. With the four sums a = xi+yj, b = xi+yk, c = xk+yj and
   * d = xk+yk of a 2 by 2 Cauchy block: 1/a + d/(bc) = (a+c)(a+b)/(abc).
   */
  lemma BlockIdentity(a: Byte, b: Byte, c: Byte, d: Byte)
    requires a != 0 && b != 0 && c != 0
    requires d == Add(Add(a, b), c)
    ensures Add(Inv(a), Mul(Mul(Inv(b), Inv(c)), d))
         == Mul(Inv(a), Mul(Div(Add(a, c), b), Div(Add(a, b), c)))
  {
    hide Mul, Inv, Add;
    var p, q := Inv(a), Mul(Inv(b), Inv(c));
    MulInv(a);
    MulInv(b);
    MulInv(c);
    // Both sides are p q (bc + ad).
    SquareFree(a, b, c, d);
    var bc, ad := Mul(b, c), Mul(a, d);
    assert Mul(q, bc) == 1 && p == Mul(Mul(p, q), bc) by {
      MulSwap(Inv(b), Inv(c), b, c);
      MulOne(1);
      MulAssoc(p, q, bc);
      MulOne(p);
    }
    assert Mul(q, d) == Mul(Mul(p, q), ad) by {
      MulSwap(p, q, a, d);
      MulComm(p, a);
      MulOne(Mul(q, d));
    }
    MulAdd(Mul(p, q), bc, ad);
    var ac', ab' := Add(a, c), Add(a, b);
    MulSwap(ac', Inv(b), ab', Inv(c));
    MulComm(Mul(ac', ab'), q);
    MulAssoc(p, q, Mul(ac', ab'));
  }

  /** (a+c)(a+b) = bc + a(a+b+c). */
  lemma SquareFree(a: Byte, b: Byte, c: Byte, d: Byte)
    requires d == Add(Add(a, b), c)
    ensures Mul(Add(a, c), Add(a, b)) == Add(Mul(b, c), Mul(a, d))
  {
    hide Mul, Add;
    var aa, ab, ac, bc := Mul(a, a), Mul(a, b), Mul(a, c), Mul(b, c);
    MulAdd(Add(a, b), a, c);
    MulAdd(a, a, b);
    MulAdd(c, a, b);
    MulComm(c, a);
    MulComm(c, b);
    MulAdd(a, Add(a, b), c);
    AddAssoc(Add(aa, ab), ac, bc);
    AddComm(Add(Add(aa, ab), ac), bc);
  }

  /** Below the pivot row, the multiplier L times the pivot is the element it eliminates. */
  lemma Eliminates(xs: seq<Byte>, ys: seq<Byte>, x0: Byte, k: nat, i: nat)
    requires Points(xs, ys, x0) && k < i < |xs|
    ensures Add(S(xs, ys, x0, k, i, k), Mul(L(xs, ys, x0, i, k), S(xs, ys, x0, k, k, k))) == 0
  {
    hide Add, Mul, S;
    PivotNonzero(xs, ys, x0, k);
    DivMul(S(xs, ys, x0, k, i, k), S(xs, ys, x0, k, k, k));
    AddZero(S(xs, ys, x0, k, i, k));
  }

  /** The multiplier L, written with the generators: g[i]/(xi+yk) over g[k]/(xk+yk). */
  lemma MultiplierByGenerators(xs: seq<Byte>, ys: seq<Byte>, x0: Byte, k: nat, i: nat)
    requires Points(xs, ys, x0) && k <= i < |xs|
    ensures L(xs, ys, x0, i, k)
         == Div(Div(G(xs, ys, k, i), Add(xs[i], ys[k])), Div(G(xs, ys, k, k), Add(xs[k], ys[k])))
  {
    hide Add, Mul, Inv, G, H;
    var g, g', h := G(xs, ys, k, i), G(xs, ys, k, k), H(xs, ys, k, k);
    var c, p, p' := Add(ys[k], x0), Inv(Add(xs[i], ys[k])), Inv(Add(xs[k], ys[k]));
    ScaledElement(g, h, c, p);
    ScaledElement(g', h, c, p');
    GeneratorsNonzero(xs, ys, x0, k, k);
    DistinctSum(ys[k], x0);
    DistinctSum(xs[k], ys[k]);
    MulInv(Add(xs[k], ys[k]));
    MulNonzero(h, c);
    MulNonzero(g', p');
    DivCancel(Mul(g, p), Mul(g', p'), Mul(h, c));
  }

  /** (gh)(cp) = (gp)(hc). */
  lemma ScaledElement(g: Byte, h: Byte, c: Byte, p: Byte)
    ensures Mul(Mul(g, h), Mul(c, p)) == Mul(Mul(g, p), Mul(h, c))
  {
    hide Mul;
    MulComm(c, p);
    MulSwap(g, h, p, c);
  }

  /** One step of the factorisation: the generators' update is the Schur complement. */
  lemma SchurStep(xs: seq<Byte>, ys: seq<Byte>, x0: Byte, k: nat, i: nat, j: nat)
    requires Points(xs, ys, x0) && k < i < |xs| && k < j < |xs|
    ensures S(xs, ys, x0, k + 1, i, j)
         == Add(S(xs, ys, x0, k, i, j), Mul(L(xs, ys, x0, i, k), S(xs, ys, x0, k, k, j)))
  {
    hide Add, Mul, Inv, G, H, S, L;
    var a, b := Add(xs[i], ys[j]), Add(xs[i], ys[k]);
    var c, d := Add(xs[k], ys[j]), Add(xs[k], ys[k]);
    var w := Mul(Mul(G(xs, ys, k, i), H(xs, ys, k, j)), Add(ys[j], x0));
    DistinctSum(xs[i], ys[j]);
    DistinctSum(xs[i], ys[k]);
    DistinctSum(xs[k], ys[j]);
    BlockSums(xs[i], xs[k], ys[j], ys[k]);
    BlockIdentity(a, b, c, d);
    ElementBefore(xs, ys, x0, k, i, j);
    ElementCorrection(xs, ys, x0, k, i, j);
    ElementAfter(xs, ys, x0, k, i, j);
    MulAdd(w, Inv(a), Mul(Mul(Inv(b), Inv(c)), d));
  }

  lemma BlockSums(xi: Byte, xk: Byte, yj: Byte, yk: Byte)
    ensures Add(xk, yk) == Add(Add(Add(xi, yj), Add(xi, yk)), Add(xk, yj))
    ensures Add(xi, xk) == Add(Add(xi, yj), Add(xk, yj))
    ensures Add(yj, yk) == Add(Add(xi, yj), Add(xi, yk))
  {
    hide Add;
    AddSwap(xi, yj, xk, yj);
    AddZero(yj);
    AddZero(Add(xi, xk));
    AddSwap(xi, yj, xi, yk);
    AddZero(xi);
    AddZero(Add(yj, yk));
    AddComm(xk, yj);
    AddSwap(yj, yk, yj, xk);
    AddZero(Add(yk, xk));
    AddComm(yk, xk);
  }

  lemma ElementBefore(xs: seq<Byte>, ys: seq<Byte>, x0: Byte, k: nat, i: nat, j: nat)
    requires |xs| == |ys| && k < |xs| && i < |xs| && j < |xs|
    ensures var w := Mul(Mul(G(xs, ys, k, i), H(xs, ys, k, j)), Add(ys[j], x0));
            S(xs, ys, x0, k, i, j) == Mul(w, Inv(Add(xs[i], ys[j])))
  {
    hide Add, Mul, Inv, G, H;
    MulAssoc(Mul(G(xs, ys, k, i), H(xs, ys, k, j)), Add(ys[j], x0), Inv(Add(xs[i], ys[j])));
  }

  lemma ElementCorrection(xs: seq<Byte>, ys: seq<Byte>, x0: Byte, k: nat, i: nat, j: nat)
    requires Points(xs, ys, x0) && k < i < |xs| && k < j < |xs|
    ensures var w := Mul(Mul(G(xs, ys, k, i), H(xs, ys, k, j)), Add(ys[j], x0));
            Mul(L(xs, ys, x0, i, k), S(xs, ys, x0, k, k, j))
              == Mul(w, Mul(Mul(Inv(Add(xs[i], ys[k])), Inv(Add(xs[k], ys[j]))), Add(xs[k], ys[k])))
  {
    hide Add, Mul, Inv, G, H, S, L;
    MultiplierByGenerators(xs, ys, x0, k, i);
    GeneratorsNonzero(xs, ys, x0, k, k);
    DistinctSum(xs[k], ys[k]);
    var g, g', h, e := G(xs, ys, k, i), G(xs, ys, k, k), H(xs, ys, k, j), Add(ys[j], x0);
    var p, q, d := Inv(Add(xs[i], ys[k])), Inv(Add(xs[k], ys[j])), Add(xs[k], ys[k]);
    ElementBefore(xs, ys, x0, k, k, j);
    CorrectionShape(g, g', h, e, p, q, d);
  }

  /** (gp)/(g'/d) * ((g'h)e)q = ((gh)e)((pq)d). */
  lemma CorrectionShape(g: Byte, g': Byte, h: Byte, e: Byte, p: Byte, q: Byte, d: Byte)
    requires g' != 0 && d != 0
    ensures Mul(Div(Mul(g, p), Div(g', d)), Mul(Mul(Mul(g', h), e), q)) == Mul(Mul(Mul(g, h), e), Mul(Mul(p, q), d))
  {
    hide Mul, Inv;
    MulInv(d);
    InvMul(g', Inv(d));
    InvInv(d);
    var r, he := Inv(g'), Mul(h, e);
    // Div(gp, g'/d) = (gp)(r d)
    MulAssoc(g', h, e);
    MulAssoc(g, h, e);
    MulAssoc(g', he, q);
    // left: ((gp)(rd)) (g' (he q))
    MulComm(r, d);
    MulAssoc(Mul(g, p), d, r);
    MulAssoc(Mul(Mul(g, p), d), r, Mul(g', Mul(he, q)));
    MulInv(g');
    MulAssoc(r, g', Mul(he, q));
    MulOne(Mul(he, q));
    // now ((gp)d)(he q) = (g he)((pq)d)
    MulAssoc(g, p, d);
    MulSwap(g, Mul(p, d), he, q);
    MulAssoc(p, d, q);
    MulComm(d, q);
    MulAssoc(p, q, d);
  }

  lemma InvInv(a: Byte)
    requires a != 0
    ensures Inv(a) != 0 && Inv(Inv(a)) == a
  {
    hide Mul, Inv;
    MulInv(a);
    MulInv(Inv(a));
    MulComm(Inv(Inv(a)), Inv(a));
    MulComm(a, Inv(a));
    MulCancel(Inv(Inv(a)), a, Inv(a));
  }

  lemma ElementAfter(xs: seq<Byte>, ys: seq<Byte>, x0: Byte, k: nat, i: nat, j: nat)
    requires |xs| == |ys| && k < i < |xs| && k < j < |xs|
    ensures var w := Mul(Mul(G(xs, ys, k, i), H(xs, ys, k, j)), Add(ys[j], x0));
            S(xs, ys, x0, k + 1, i, j)
              == Mul(w, Mul(Inv(Add(xs[i], ys[j])),
                            Mul(Div(Add(xs[i], xs[k]), Add(xs[i], ys[k])), Div(Add(ys[j], ys[k]), Add(xs[k], ys[j])))))
  {
    hide Add, Mul, Inv, Div;
    var g, h, e, p := G(xs, ys, k, i), H(xs, ys, k, j), Add(ys[j], x0), Inv(Add(xs[i], ys[j]));
    var u, v := Div(Add(xs[i], xs[k]), Add(xs[i], ys[k])), Div(Add(ys[j], ys[k]), Add(xs[k], ys[j]));
    AddComm(ys[j], xs[k]);
    MulSwap(g, u, h, v);
    DivIs(e, Add(xs[i], ys[j]));
    MulAssoc(Mul(g, h), Mul(u, v), Mul(e, p));
    MulAssoc(Mul(u, v), e, p);
    MulComm(Mul(u, v), e);
    MulAssoc(e, Mul(u, v), p);
    MulComm(Mul(u, v), p);
    MulAssoc(Mul(g, h), e, Mul(p, Mul(u, v)));
  }

  lemma DivIs(a: Byte, b: Byte)
    ensures Div(a, b) == Mul(a, Inv(b))
  {
  }

  // ---------------------------------------------------------------- the factorisation

  /** The terms m = k, k+1, ... of element (i, j) of the product L D U. */
  ghost function LduFrom(xs: seq<Byte>, ys: seq<Byte>, x0: Byte, i: nat, j: nat, k: nat): Byte
    requires |xs| == |ys| && i < |xs| && j < |xs|
    decreases |xs| - k
  {
    if k > i || k > j then 0
    else Add(Mul(Mul(L(xs, ys, x0, i, k), D(xs, ys, x0, k)), U(xs, ys, x0, k, j)), LduFrom(xs, ys, x0, i, j, k + 1))
  }

  /** L D U is the scaled Cauchy matrix of the received rows and the erased columns. */
  lemma LduIsCauchy(xs: seq<Byte>, ys: seq<Byte>, x0: Byte, i: nat, j: nat)
    requires Points(xs, ys, x0) && i < |xs| && j < |xs|
    ensures LduFrom(xs, ys, x0, i, j, 0) == Element(xs[i], x0, ys[j])
  {
    hide Mul, Element;
    LduIsSchur(xs, ys, x0, i, j, 0);
    MulOne(1);
    MulOne(Element(xs[i], x0, ys[j]));
  }

  lemma {:induction false} LduIsSchur(xs: seq<Byte>, ys: seq<Byte>, x0: Byte, i: nat, j: nat, k: nat)
    requires Points(xs, ys, x0) && k <= i < |xs| && k <= j < |xs|
    ensures LduFrom(xs, ys, x0, i, j, k) == S(xs, ys, x0, k, i, j)
    decreases |xs| - k
  {
    hide Add, Mul, Inv, S, Div;
    var p, e := S(xs, ys, x0, k, i, k), S(xs, ys, x0, k, k, j);
    var d, l, u := D(xs, ys, x0, k), L(xs, ys, x0, i, k), U(xs, ys, x0, k, j);
    PivotNonzero(xs, ys, x0, k);
    DivMul(e, d);
    DivMul(p, d);
    MulAssoc(l, d, u);
    if k < i && k < j {
      LduIsSchur(xs, ys, x0, i, j, k + 1);
      SchurStep(xs, ys, x0, k, i, j);
      AddComm(S(xs, ys, x0, k, i, j), Mul(l, e));
      AddComm(Mul(l, e), S(xs, ys, x0, k + 1, i, j));
      AddCancel(S(xs, ys, x0, k, i, j), Mul(l, e));
    } else {
      AddZero(Mul(l, e));
      DivSelf(d);
      MulOne(e);
      MulOne(p);
      MulOne(l);
    }
  }

  lemma DivSelf(d: Byte)
    requires d != 0
    ensures Div(d, d) == 1
  {
    MulInv(d);
  }

  // ---------------------------------------------------------------- solving, one byte column at a time

  /** Row i of the Schur complement after k steps applied to the first hi unknowns of a column v. */
  ghost function Residual(xs: seq<Byte>, ys: seq<Byte>, x0: Byte, v: seq<Byte>, k: nat, i: nat, hi: nat): Byte
    requires |xs| == |ys| == |v| && k <= |xs| && i < |xs| && hi <= |v|
  {
    if hi <= k then 0
    else Add(Residual(xs, ys, x0, v, k, i, hi - 1), Mul(S(xs, ys, x0, k, i, hi - 1), v[hi - 1]))
  }

  /** Row k of U applied to the first hi unknowns. */
  ghost function Triangle(xs: seq<Byte>, ys: seq<Byte>, x0: Byte, v: seq<Byte>, k: nat, hi: nat): Byte
    requires |xs| == |ys| == |v| && k < |xs| && hi <= |v|
  {
    if hi <= k then 0
    else Add(Triangle(xs, ys, x0, v, k, hi - 1), Mul(U(xs, ys, x0, k, hi - 1), v[hi - 1]))
  }

  /** One step of the lower sweep: subtracting L times the pivot row eliminates unknown k. */
  lemma {:induction false} LowerStep(xs: seq<Byte>, ys: seq<Byte>, x0: Byte, v: seq<Byte>, k: nat, i: nat, hi: nat)
    requires Points(xs, ys, x0) && |v| == |xs| && k < i < |xs| && k < hi <= |v|
    ensures Residual(xs, ys, x0, v, k + 1, i, hi)
         == Add(Residual(xs, ys, x0, v, k, i, hi), Mul(L(xs, ys, x0, i, k), Residual(xs, ys, x0, v, k, k, hi)))
    decreases hi
  {
    hide Add, Mul, S, L;
    var l, x, j := L(xs, ys, x0, i, k), v[hi - 1], hi - 1;
    var si, sk := S(xs, ys, x0, k, i, j), S(xs, ys, x0, k, k, j);
    var ri, rk := Residual(xs, ys, x0, v, k, i, j), Residual(xs, ys, x0, v, k, k, j);
    MulAdd(l, rk, Mul(sk, x));
    MulAssoc(l, sk, x);
    MulAdd(x, si, Mul(l, sk));
    AddSwap(ri, Mul(si, x), Mul(l, rk), Mul(Mul(l, sk), x));
    if j == k {
      Eliminates(xs, ys, x0, k, i);
      MulZero(l);
      MulZero(x);
      AddZero(0);
    } else {
      LowerStep(xs, ys, x0, v, k, i, hi - 1);
      SchurStep(xs, ys, x0, k, i, j);
    }
  }

  /** Dividing by the pivot turns the residual of row k into a row of U. */
  lemma {:induction false} DiagonalStep(xs: seq<Byte>, ys: seq<Byte>, x0: Byte, v: seq<Byte>, k: nat, hi: nat)
    requires Points(xs, ys, x0) && |v| == |xs| && k < |xs| && hi <= |v|
    ensures Mul(Residual(xs, ys, x0, v, k, k, hi), Inv(D(xs, ys, x0, k))) == Triangle(xs, ys, x0, v, k, hi)
  {
    hide Add, Mul, Inv, S;
    var d' := Inv(D(xs, ys, x0, k));
    if hi <= k {
      MulZero(d');
    } else {
      DiagonalStep(xs, ys, x0, v, k, hi - 1);
      var s, x := S(xs, ys, x0, k, k, hi - 1), v[hi - 1];
      MulAdd(d', Residual(xs, ys, x0, v, k, k, hi - 1), Mul(s, x));
      MulAssoc(s, x, d');
      MulComm(x, d');
      MulAssoc(s, d', x);
    }
  }

  /** One step of the upper sweep: adding U times a solved unknown removes its term. */
  lemma UpperStep(xs: seq<Byte>, ys: seq<Byte>, x0: Byte, v: seq<Byte>, k: nat, hi: nat)
    requires |xs| == |ys| == |v| && k < hi < |v|
    ensures Add(Triangle(xs, ys, x0, v, k, hi + 1), Mul(U(xs, ys, x0, k, hi), v[hi])) == Triangle(xs, ys, x0, v, k, hi)
  {
    hide Add, Mul, U;
    AddCancel(Triangle(xs, ys, x0, v, k, hi), Mul(U(xs, ys, x0, k, hi), v[hi]));
  }

  /** With all later terms removed, row k of U is the unknown k itself. */
  lemma Solved(xs: seq<Byte>, ys: seq<Byte>, x0: Byte, v: seq<Byte>, k: nat)
    requires Points(xs, ys, x0) && |v| == |xs| && k < |v|
    ensures Triangle(xs, ys, x0, v, k, k + 1) == v[k]
  {
    hide Add, Mul, S;
    PivotNonzero(xs, ys, x0, k);
    DivSelf(D(xs, ys, x0, k));
    MulOne(v[k]);
    AddZero(v[k]);
  }

  // ---------------------------------------------------------------- encoding, one byte column at a time

  /** Recovery row x of the column of original bytes, over the first n originals that are not skipped. */
  ghost function RowSum(x: Byte, x0: Byte, col: seq<Byte>, n: nat, skip: set<nat>): Byte
    requires n <= |col| <= 256
  {
    if n == 0 then 0
    else if n - 1 in skip then RowSum(x, x0, col, n - 1, skip)
    else Add(RowSum(x, x0, col, n - 1, skip), Mul(Element(x, x0, n - 1), col[n - 1]))
  }

  /** Adding the term of a received original to a recovery row skips that original. */
  lemma {:induction false} SkipOne(x: Byte, x0: Byte, col: seq<Byte>, n: nat, skip: set<nat>, r: nat)
    requires r < n <= |col| <= 256 && r !in skip
    ensures Add(RowSum(x, x0, col, n, skip), Mul(Element(x, x0, r), col[r])) == RowSum(x, x0, col, n, skip + {r})
  {
    hide Add, Mul, Element;
    var e := Mul(Element(x, x0, r), col[r]);
    if r == n - 1 {
      SkipAbove(x, x0, col, n - 1, skip, r);
      AddCancel(RowSum(x, x0, col, n - 1, skip), e);
    } else {
      SkipOne(x, x0, col, n - 1, skip, r);
      if n - 1 !in skip {
        var s, f := RowSum(x, x0, col, n - 1, skip), Mul(Element(x, x0, n - 1), col[n - 1]);
        AddAssoc(s, f, e);
        AddComm(f, e);
        AddAssoc(s, e, f);
      }
    }
  }

  lemma {:induction false} SkipAbove(x: Byte, x0: Byte, col: seq<Byte>, n: nat, skip: set<nat>, r: nat)
    requires n <= |col| <= 256 && n <= r
    ensures RowSum(x, x0, col, n, skip + {r}) == RowSum(x, x0, col, n, skip)
  {
    hide Add, Mul, Element;
    if n > 0 {
      SkipAbove(x, x0, col, n - 1, skip, r);
    }
  }

  /** The indices below n that were not received, in ascending order. */
  function Missing(n: nat, received: set<nat>): (ys: seq<nat>)
    ensures |ys| <= n
    ensures forall i :: 0 <= i < |ys| ==> ys[i] < n && ys[i] !in received
    ensures forall i, j :: 0 <= i < j < |ys| ==> ys[i] < ys[j]
  {
    if n == 0 then []
    else Missing(n - 1, received) + (if n - 1 in received then [] else [n - 1])
  }

  /** With the received originals skipped, a recovery row is the Cauchy system of the missing ones. */
  lemma {:induction false} RowSumIsResidual(
    xs: seq<Byte>, ys: seq<Byte>, x0: Byte, col: seq<Byte>, v: seq<Byte>, i: nat, n: nat, received: set<nat>)
    requires |xs| == |ys| == |v| && i < |xs| && n <= |col| <= 256
    requires |Missing(n, received)| <= |ys|
    requires forall m :: 0 <= m < |Missing(n, received)| ==> ys[m] == Missing(n, received)[m] && v[m] == col[ys[m]]
    ensures RowSum(xs[i], x0, col, n, received) == Residual(xs, ys, x0, v, 0, i, |Missing(n, received)|)
  {
    hide Add, Mul, Element;
    if n > 0 {
      RowSumIsResidual(xs, ys, x0, col, v, i, n - 1, received);
      if n - 1 !in received {
        var m := |Missing(n - 1, received)|;
        assert ys[m] == n - 1 && v[m] == col[n - 1];
        MulOne(1);
        MulOne(Element(xs[i], x0, ys[m]));
      }
    }
  }

  /** The unscaled factor U by generators, and the pivot entry that divides it. */
  ghost function UpperPivot(xs: seq<Byte>, ys: seq<Byte>, x0: Byte, k: nat): Byte
    requires |xs| == |ys| && k < |xs|
  {
    Mul(Div(H(xs, ys, k, k), Add(xs[k], ys[k])), Add(x0, ys[k]))
  }

  ghost function LowerPivot(xs: seq<Byte>, ys: seq<Byte>, k: nat): Byte
    requires |xs| == |ys| && k < |xs|
  {
    Div(G(xs, ys, k, k), Add(xs[k], ys[k]))
  }

  /** U before the column scaling by (x0 + yj). */
  ghost function UpperRaw(xs: seq<Byte>, ys: seq<Byte>, x0: Byte, k: nat, j: nat): Byte
    requires |xs| == |ys| && k < |xs| && j < |xs|
  {
    Div(Div(H(xs, ys, k, j), Add(xs[k], ys[j])), UpperPivot(xs, ys, x0, k))
  }

  /** The factor U, written with the generators. */
  lemma UpperByGenerators(xs: seq<Byte>, ys: seq<Byte>, x0: Byte, k: nat, j: nat)
    requires Points(xs, ys, x0) && k <= j < |xs|
    ensures Mul(UpperRaw(xs, ys, x0, k, j), Add(x0, ys[j])) == U(xs, ys, x0, k, j)
  {
    hide Add, Mul, Inv, G, H;
    var g, h, h' := G(xs, ys, k, k), H(xs, ys, k, j), H(xs, ys, k, k);
    var c, c', q, q' := Add(ys[j], x0), Add(ys[k], x0), Inv(Add(xs[k], ys[j])), Inv(Add(xs[k], ys[k]));
    AddComm(x0, ys[j]);
    AddComm(x0, ys[k]);
    GeneratorsNonzero(xs, ys, x0, k, k);
    DistinctSum(ys[k], x0);
    DistinctSum(xs[k], ys[k]);
    MulInv(Add(xs[k], ys[k]));
    MulNonzero(h', q');
    MulNonzero(Mul(h', q'), c');
    UpperShape(g, h, c, q);
    UpperShape(g, h', c', q');
    DivCancel(Mul(Mul(h, q), c), Mul(Mul(h', q'), c'), g);
    var n, d' := Mul(h, q), Inv(Mul(Mul(h', q'), c'));
    MulAssoc(n, d', c);
    MulComm(d', c);
    MulAssoc(n, c, d');
  }

  /** (gh)(cq) = g((hq)c). */
  lemma UpperShape(g: Byte, h: Byte, c: Byte, q: Byte)
    ensures Mul(Mul(g, h), Mul(c, q)) == Mul(g, Mul(Mul(h, q), c))
  {
    hide Mul;
    MulAssoc(g, h, Mul(c, q));
    MulComm(c, q);
    MulAssoc(h, q, c);
  }

  /** The diagonal entry by the pivots, as written for each step but the last. */
  lemma DiagonalByPivots(xs: seq<Byte>, ys: seq<Byte>, x0: Byte, k: nat)
    requires Points(xs, ys, x0) && k < |xs|
    ensures Mul(Add(xs[k], ys[k]), Mul(LowerPivot(xs, ys, k), UpperPivot(xs, ys, x0, k))) == D(xs, ys, x0, k)
  {
    hide Add, Mul, Inv, G, H;
    var g, h, c, d := G(xs, ys, k, k), H(xs, ys, k, k), Add(ys[k], x0), Add(xs[k], ys[k]);
    var p := Inv(d);
    AddComm(x0, ys[k]);
    DistinctSum(xs[k], ys[k]);
    MulInv(d);
    UpperShape(g, h, c, p);
    var u := Mul(Mul(h, p), c);
    MulComm(g, p);
    MulAssoc(d, Mul(p, g), u);
    MulAssoc(d, p, g);
    MulOne(g);
  }

  /** The last diagonal entry, written without pivots. */
  lemma LastDiagonal(xs: seq<Byte>, ys: seq<Byte>, x0: Byte, k: nat)
    requires Points(xs, ys, x0) && k < |xs|
    ensures Div(Mul(G(xs, ys, k, k), Mul(H(xs, ys, k, k), Add(x0, ys[k]))), Add(xs[k], ys[k])) == D(xs, ys, x0, k)
  {
    hide Add, Mul, Inv, G, H;
    var g, h, c, p := G(xs, ys, k, k), H(xs, ys, k, k), Add(ys[k], x0), Inv(Add(xs[k], ys[k]));
    AddComm(x0, ys[k]);
    MulAssoc(g, h, c);
    MulAssoc(Mul(g, h), c, p);
  }

  /** The pivots the rows are divided by are nonzero. */
  lemma PivotsNonzero(xs: seq<Byte>, ys: seq<Byte>, x0: Byte, k: nat)
    requires Points(xs, ys, x0) && k < |xs|
    ensures LowerPivot(xs, ys, k) != 0 && UpperPivot(xs, ys, x0, k) != 0
  {
    hide Add, Mul, Inv, G, H;
    GeneratorsNonzero(xs, ys, x0, k, k);
    DistinctSum(xs[k], ys[k]);
    DistinctSum(x0, ys[k]);
    DivMul(G(xs, ys, k, k), Add(xs[k], ys[k]));
    DivMul(H(xs, ys, k, k), Add(xs[k], ys[k]));
    MulNonzero(Div(H(xs, ys, k, k), Add(xs[k], ys[k])), Add(x0, ys[k]));
  }
}
