/**
 * GenerateLDUDecomposition: the factors of the scaled Cauchy matrix, written into the packed
 * arrays that the decoder reads. L is packed by columns, top down; U by columns, bottom up, the
 * last column first. The three parts of the source's one buffer are separate arrays here.
 */
module Cm256Factor {
  import opened Bytes
  import opened Gf256
  import opened Gf256Tables
  import opened Gf256Kernels
  import opened Cauchy

  // ---------------------------------------------------------------- packed positions

  /** Where column k of L begins: the columns before it hold n-1, n-2, ... entries. */
  function ColumnStart(n: nat, k: nat): nat
    requires k <= n
  {
    if k == 0 then 0 else ColumnStart(n, k - 1) + (n - k)
  }

  function LowerAt(n: nat, k: nat, i: nat): nat
    requires k < i < n
  {
    ColumnStart(n, k) + (i - k - 1)
  }

  /** Where column j of U begins: the columns after it, of n-1, n-2, ..., j+1 entries, come first. */
  function SegmentStart(n: nat, j: nat): nat
    decreases n - j
  {
    if j + 1 >= n then 0 else SegmentStart(n, j + 1) + (j + 1)
  }

  /** Within its column of U, entry k comes after the entries below it. */
  function UpperAt(n: nat, k: nat, j: nat): nat
    requires k < j < n
  {
    SegmentStart(n, j) + (j - 1 - k)
  }

  lemma {:induction false} ColumnStartMonotone(n: nat, k: nat, k': nat)
    requires k <= k' <= n
    ensures ColumnStart(n, k) <= ColumnStart(n, k')
    decreases k' - k
  {
    if k < k' {
      ColumnStartMonotone(n, k, k' - 1);
    }
  }

  lemma {:induction false} SegmentStartMonotone(n: nat, j: nat, j': nat)
    requires j < j' < n
    ensures SegmentStart(n, j') + j' <= SegmentStart(n, j)
    decreases j' - j
  {
    if j + 1 < j' {
      SegmentStartMonotone(n, j + 1, j');
    }
  }

  lemma {:induction false} ColumnStartIs(n: nat, k: nat)
    requires k <= n
    ensures 2 * ColumnStart(n, k) == k * (2 * n - k - 1)
  {
    if k > 0 {
      ColumnStartIs(n, k - 1);
      assert (k - 1) * (2 * n - k) + 2 * (n - k) == k * (2 * n - k - 1);
    }
  }

  lemma {:induction false} SegmentStartIs(n: nat, j: nat)
    requires j < n
    ensures 2 * SegmentStart(n, j) == n * (n - 1) - j * (j + 1)
    decreases n - j
  {
    if j + 1 < n {
      SegmentStartIs(n, j + 1);
      assert (j + 1) * (j + 2) == j * (j + 1) + 2 * (j + 1);
    } else {
      assert j == n - 1;
    }
  }

  /** Half of the off-diagonal entries of an n by n matrix. */
  function Packed(n: nat): nat { n * (n - 1) / 2 }

  /** Both packed triangles have n(n-1)/2 entries, and with the diagonal they fill n*n bytes. */
  lemma PackedSizes(n: nat)
    requires n > 0
    ensures ColumnStart(n, n - 1) == Packed(n) && SegmentStart(n, 0) == Packed(n)
    ensures Packed(n) + n + Packed(n) == n * n
  {
    ColumnStartIs(n, n - 1);
    SegmentStartIs(n, 0);
    assert (n - 1) * (2 * n - (n - 1) - 1) == n * (n - 1);
    assert n * (n - 1) == n * n - n;
  }

  lemma LowerInRange(n: nat, k: nat, i: nat)
    requires k < i < n
    ensures LowerAt(n, k, i) < ColumnStart(n, k + 1) <= Packed(n)
  {
    ColumnStartMonotone(n, k + 1, n - 1);
    PackedSizes(n);
  }

  lemma UpperInRange(n: nat, k: nat, j: nat)
    requires k < j < n
    ensures UpperAt(n, k, j) < SegmentStart(n, j) + j <= Packed(n)
  {
    SegmentStartMonotone(n, 0, j);
    PackedSizes(n);
  }

  /** The packing of U is injective. */
  lemma UpperDistinct(n: nat, k: nat, j: nat, k': nat, j': nat)
    requires k < j < n && k' < j' < n && (k != k' || j != j')
    ensures UpperAt(n, k, j) != UpperAt(n, k', j')
  {
    if j < j' {
      SegmentStartMonotone(n, j, j');
    } else if j' < j {
      SegmentStartMonotone(n, j', j);
    }
  }

  // ---------------------------------------------------------------- what the arrays hold

  ghost predicate LowerHolds(a: seq<Byte>, xs: seq<Byte>, ys: seq<Byte>, x0: Byte, columns: nat)
    requires |xs| == |ys| && |a| == Packed(|xs|) && columns <= |xs|
  {
    forall k: nat, i: nat :: k < columns && k < i < |xs| ==>
      LowerAt(|xs|, k, i) < |a| && a[LowerAt(|xs|, k, i)] == L(xs, ys, x0, i, k)
  }

  ghost predicate UpperHoldsRaw(a: seq<Byte>, xs: seq<Byte>, ys: seq<Byte>, x0: Byte, rows: nat)
    requires |xs| == |ys| && |a| == Packed(|xs|) && rows <= |xs|
  {
    forall k: nat, j: nat :: k < rows && k < j < |xs| ==>
      UpperAt(|xs|, k, j) < |a| && a[UpperAt(|xs|, k, j)] == UpperRaw(xs, ys, x0, k, j)
  }

  ghost predicate UpperHolds(a: seq<Byte>, xs: seq<Byte>, ys: seq<Byte>, x0: Byte)
    requires |xs| == |ys| && |a| == Packed(|xs|)
  {
    forall k: nat, j: nat :: k < j < |xs| ==>
      UpperAt(|xs|, k, j) < |a| && a[UpperAt(|xs|, k, j)] == U(xs, ys, x0, k, j)
  }

  ghost predicate DiagonalHolds(a: seq<Byte>, xs: seq<Byte>, ys: seq<Byte>, x0: Byte, rows: nat)
    requires |xs| == |ys| && rows <= |xs| && rows <= |a|
  {
    forall k: nat :: k < rows ==> a[k] == D(xs, ys, x0, k)
  }

  // ---------------------------------------------------------------- the generators of one step

  /** Entry p of the k-th column of L, and of the k-th row of U, before the division by the pivots. */
  ghost function LowerRaw(xs: seq<Byte>, ys: seq<Byte>, k: nat, p: nat): Byte
    requires |xs| == |ys| && k + 1 + p < |xs|
  {
    Div(G(xs, ys, k, k + 1 + p), Add(xs[k + 1 + p], ys[k]))
  }

  ghost function RowRaw(xs: seq<Byte>, ys: seq<Byte>, k: nat, p: nat): Byte
    requires |xs| == |ys| && k + 1 + p < |xs|
  {
    Div(H(xs, ys, k, k + 1 + p), Add(xs[k], ys[k + 1 + p]))
  }

  /** The four values one pass of the inner loop computes from the generators of index j. */
  method GeneratorEntry(ctx: Gf256Ctx, xs: seq<Byte>, ys: seq<Byte>, k: nat, j: nat, gj: Byte, bj: Byte)
    returns (ljk: Byte, ukj: Byte, gj': Byte, bj': Byte)
    requires ctx.Valid() && |xs| == |ys| && k < j < |xs|
    requires gj == G(xs, ys, k, j) && bj == H(xs, ys, k, j)
    ensures ljk == LowerRaw(xs, ys, k, j - k - 1) && ukj == RowRaw(xs, ys, k, j - k - 1)
    ensures gj' == G(xs, ys, k + 1, j) && bj' == H(xs, ys, k + 1, j)
  {
    hide Add, Mul, Inv, Div;
    var xj, yj := xs[j], ys[j];
    ljk := ctx.Quotient(gj, Add(xj, ys[k]));
    ukj := ctx.Quotient(bj, Add(xs[k], yj));
    gj' := ctx.Product(gj, ctx.Quotient(Add(xj, xs[k]), Add(xj, ys[k])));
    bj' := ctx.Product(bj, ctx.Quotient(Add(yj, ys[k]), Add(yj, xs[k])));
  }

  method GeneratorStep(ctx: Gf256Ctx, xs: seq<Byte>, ys: seq<Byte>, k: nat,
    lower: array<Byte>, lp: nat, rotated: array<Byte>, g: array<Byte>, b: array<Byte>)
    requires ctx.Valid() && |xs| == |ys| <= 256 && k < |xs|
    requires g.Length == b.Length == rotated.Length == 256 && lp + (|xs| - 1 - k) <= lower.Length
    requires lower != rotated && lower != g && lower != b && rotated != g && rotated != b && g != b
    requires lower != ctx.invTable && rotated != ctx.invTable && g != ctx.invTable && b != ctx.invTable
    requires forall i: nat :: k <= i < |xs| ==> g[i] == G(xs, ys, k, i) && b[i] == H(xs, ys, k, i)
    modifies lower, rotated, g, b
    ensures forall i: nat :: k < i < |xs| ==> g[i] == G(xs, ys, k + 1, i) && b[i] == H(xs, ys, k + 1, i)
    ensures forall p: nat :: p < lower.Length ==>
      lower[p] == if lp <= p < lp + (|xs| - 1 - k) then LowerRaw(xs, ys, k, p - lp) else old(lower[p])
    ensures forall p: nat :: p < |xs| - 1 - k ==> rotated[p] == RowRaw(xs, ys, k, p)
  {
    hide G, H, LowerRaw, RowRaw, ctx.Valid;
    var lp', rp := lp, 0;
    for j := k + 1 to |xs|
      invariant lp' == lp + (j - k - 1) && rp == j - k - 1
      invariant forall i: nat :: j <= i < |xs| ==> g[i] == G(xs, ys, k, i) && b[i] == H(xs, ys, k, i)
      invariant forall i: nat :: k < i < j ==> g[i] == G(xs, ys, k + 1, i) && b[i] == H(xs, ys, k + 1, i)
      invariant forall p: nat :: p < lower.Length ==>
        lower[p] == if lp <= p < lp' then LowerRaw(xs, ys, k, p - lp) else old(lower[p])
      invariant forall p: nat :: p < rp ==> rotated[p] == RowRaw(xs, ys, k, p)
    {
      var ljk, ukj, gj, bj := GeneratorEntry(ctx, xs, ys, k, j, g[j], b[j]);
      lower[lp'] := ljk;
      rotated[rp] := ukj;
      lp', rp := lp' + 1, rp + 1;
      g[j] := gj;
      b[j] := bj;
    }
  }

  // ---------------------------------------------------------------- packing the rows of U

  /** Copies row k of U to its strided places, the last of which is nearest the start. */
  method CopyUpperRow(upper: array<Byte>, rotated: array<Byte>, n: nat, k: nat, start: int, ghost raw: seq<Byte>)
    requires upper != rotated && k + 1 < n <= 256 && upper.Length == Packed(n) && rotated.Length == 256
    requires start == UpperAt(n, k, k + 1)
    requires |raw| == n - 1 - k && forall p: nat :: p < n - 1 - k ==> rotated[p] == raw[p]
    modifies upper
    ensures forall j: nat :: k < j < n ==> UpperAt(n, k, j) < upper.Length && upper[UpperAt(n, k, j)] == raw[j - k - 1]
    ensures forall k': nat, j: nat :: k' < k && k' < j < n ==>
      UpperAt(n, k', j) < upper.Length && upper[UpperAt(n, k', j)] == old(upper[UpperAt(n, k', j)])
  {
    hide SegmentStart, UpperAt, Packed;
    var out, row := start, 0;
    forall k': nat, j: nat | k' < j < n
      ensures UpperAt(n, k', j) < upper.Length
    {
      UpperInRange(n, k', j);
    }
    for j := k + 1 to n
      invariant row == j - k - 1
      invariant j < n ==> out == UpperAt(n, k, j)
      invariant forall i: nat :: k < i < j ==> upper[UpperAt(n, k, i)] == raw[i - k - 1]
      invariant forall k': nat, i: nat :: k' < k && k' < i < n ==>
        upper[UpperAt(n, k', i)] == old(upper[UpperAt(n, k', i)])
    {
      forall k': nat, i: nat | k' <= k && k' < i < n && (k' != k || i != j)
        ensures UpperAt(n, k', i) != UpperAt(n, k, j)
      {
        UpperDistinct(n, k', i, k, j);
      }
      upper[out] := rotated[row];
      row := row + 1;
      if j + 1 < n {
        NextInRow(n, k, j);
      }
      out := out - j;
    }
  }

  lemma NextInRow(n: nat, k: nat, j: nat)
    requires k < j && j + 1 < n
    ensures UpperAt(n, k, j + 1) == UpperAt(n, k, j) - j
  {
  }

  /** The first entry of each row of U lies k + 2 before that of the row above it. */
  lemma NextRow(n: nat, k: nat)
    requires k + 2 < n
    ensures UpperAt(n, k + 1, k + 2) == UpperAt(n, k, k + 1) - (k + 2)
  {
  }

  lemma FirstRow(n: nat)
    requires n >= 2
    ensures UpperAt(n, 0, 1) == Packed(n) - 1
  {
    PackedSizes(n);
  }

  // ---------------------------------------------------------------- one step of the factorisation

  /** The buffers are separate and of the sizes the source allocates. */
  ghost predicate Buffers(ctx: Gf256Ctx, n: nat,
    lower: array<Byte>, diag: array<Byte>, upper: array<Byte>, rotated: array<Byte>, g: array<Byte>, b: array<Byte>)
  {
    && lower.Length == Packed(n) && upper.Length == Packed(n) && diag.Length == n
    && g.Length == b.Length == rotated.Length == 256
    && lower != diag && lower != upper && lower != rotated && lower != g && lower != b
    && diag != upper && diag != rotated && diag != g && diag != b
    && upper != rotated && upper != g && upper != b
    && rotated != g && rotated != b && g != b
    && ctx.invTable !in {lower, diag, upper, rotated, g, b}
  }

  /** A bulk operation in place, read off byte by byte. */
  method DivideRange(ctx: Gf256Ctx, z: array<Byte>, zo: nat, y: Byte, bytes: nat)
    requires ctx.Valid() && z != ctx.invTable && zo + bytes <= z.Length
    modifies z
    ensures forall p: nat :: p < z.Length ==> z[p] == if zo <= p < zo + bytes then Div(old(z[p]), y) else old(z[p])
  {
    hide Mul, Inv, ctx.Valid;
    ghost var before := z[..];
    DivMem(ctx, z, zo, y, bytes);
    assert forall p: nat :: p < z.Length ==> z[p] == z[..][p];
  }

  method ScaleRange(ctx: Gf256Ctx, z: array<Byte>, zo: nat, y: Byte, bytes: nat)
    requires ctx.Valid() && z != ctx.invTable && zo + bytes <= z.Length
    modifies z
    ensures forall p: nat :: p < z.Length ==> z[p] == if zo <= p < zo + bytes then Mul(old(z[p]), y) else old(z[p])
  {
    hide Mul, ctx.Valid;
    MulMem(ctx, z, zo, z, zo, y, bytes);
    assert forall p: nat :: p < z.Length ==> z[p] == z[..][p];
  }

  lemma LowerColumnDone(before: seq<Byte>, after: seq<Byte>, xs: seq<Byte>, ys: seq<Byte>, x0: Byte, k: nat)
    requires Points(xs, ys, x0) && k + 1 < |xs| && |before| == |after| == Packed(|xs|)
    requires LowerHolds(before, xs, ys, x0, k)
    requires var lp := ColumnStart(|xs|, k);
      forall p: nat :: p < |after| ==>
        after[p] == if lp <= p < lp + (|xs| - 1 - k) then Div(LowerRaw(xs, ys, k, p - lp), LowerPivot(xs, ys, k)) else before[p]
    ensures LowerHolds(after, xs, ys, x0, k + 1)
  {
    hide Packed, Div, L, LowerRaw, LowerPivot, ColumnStart;
    var n, lp := |xs|, ColumnStart(|xs|, k);
    forall k': nat, i: nat | k' < k + 1 && k' < i < n
      ensures LowerAt(n, k', i) < |after| && after[LowerAt(n, k', i)] == L(xs, ys, x0, i, k')
    {
      LowerInRange(n, k', i);
      var p := LowerAt(n, k', i);
      if k' < k {
        ColumnStartMonotone(n, k' + 1, k);
        assert after[p] == before[p];
      } else {
        LowerByRaw(xs, ys, x0, k, i);
        assert p - lp == i - k - 1;
      }
    }
  }

  lemma LowerByRaw(xs: seq<Byte>, ys: seq<Byte>, x0: Byte, k: nat, i: nat)
    requires Points(xs, ys, x0) && k < i < |xs|
    ensures Div(LowerRaw(xs, ys, k, i - k - 1), LowerPivot(xs, ys, k)) == L(xs, ys, x0, i, k)
  {
    hide Div, L, G;
    MultiplierByGenerators(xs, ys, x0, k, i);
  }

  lemma UpperRowDone(before: seq<Byte>, after: seq<Byte>, raw: seq<Byte>, xs: seq<Byte>, ys: seq<Byte>, x0: Byte, k: nat)
    requires |xs| == |ys| && k + 1 < |xs| && |before| == |after| == Packed(|xs|)
    requires UpperHoldsRaw(before, xs, ys, x0, k)
    requires |raw| == |xs| - 1 - k
    requires forall j: nat :: k < j < |xs| ==> raw[j - k - 1] == UpperRaw(xs, ys, x0, k, j)
    requires forall j: nat :: k < j < |xs| ==>
      UpperAt(|xs|, k, j) < |after| && after[UpperAt(|xs|, k, j)] == raw[j - k - 1]
    requires forall k': nat, j: nat :: k' < k && k' < j < |xs| ==>
      UpperAt(|xs|, k', j) < |after| && after[UpperAt(|xs|, k', j)] == before[UpperAt(|xs|, k', j)]
    ensures UpperHoldsRaw(after, xs, ys, x0, k + 1)
  {
    hide Packed, UpperRaw, UpperAt;
  }

  /** The diagonal entry and the pivots of step k. */
  method Pivots(ctx: Gf256Ctx, xs: seq<Byte>, ys: seq<Byte>, x0: Byte, k: nat, gk: Byte, bk: Byte)
    returns (lkk: Byte, ukk: Byte, d: Byte)
    requires ctx.Valid() && Points(xs, ys, x0) && k < |xs|
    requires gk == G(xs, ys, k, k) && bk == H(xs, ys, k, k)
    ensures lkk == LowerPivot(xs, ys, k) && ukk == UpperPivot(xs, ys, x0, k) && d == D(xs, ys, x0, k)
  {
    hide Mul, Inv, Add, Div, G, H, S;
    var dkk := Add(xs[k], ys[k]);
    lkk := ctx.Quotient(gk, dkk);
    ukk := ctx.Product(ctx.Quotient(bk, dkk), Add(x0, ys[k]));
    d := ctx.Product(dkk, ctx.Product(lkk, ukk));
    DiagonalCommuted(xs, ys, x0, k);
  }

  /** The pivot product in the order the source multiplies it. */
  lemma DiagonalCommuted(xs: seq<Byte>, ys: seq<Byte>, x0: Byte, k: nat)
    requires Points(xs, ys, x0) && k < |xs|
    ensures Mul(Add(xs[k], ys[k]), Mul(LowerPivot(xs, ys, k), UpperPivot(xs, ys, x0, k))) == D(xs, ys, x0, k)
  {
    DiagonalByPivots(xs, ys, x0, k);
  }

  /** One pass of the outer loop of the factorisation. */
  method FactorStep(ctx: Gf256Ctx, xs: seq<Byte>, ys: seq<Byte>, x0: Byte, k: nat,
    lower: array<Byte>, diag: array<Byte>, upper: array<Byte>, rotated: array<Byte>, g: array<Byte>, b: array<Byte>,
    lp: nat, start: int)
    requires ctx.Valid() && Points(xs, ys, x0) && |xs| <= 256 && k + 1 < |xs|
    requires Buffers(ctx, |xs|, lower, diag, upper, rotated, g, b)
    requires lp == ColumnStart(|xs|, k) && start == UpperAt(|xs|, k, k + 1)
    requires forall i: nat :: k <= i < |xs| ==> g[i] == G(xs, ys, k, i) && b[i] == H(xs, ys, k, i)
    requires LowerHolds(lower[..], xs, ys, x0, k) && UpperHoldsRaw(upper[..], xs, ys, x0, k)
    requires DiagonalHolds(diag[..], xs, ys, x0, k)
    modifies lower, diag, upper, rotated, g, b
    ensures forall i: nat :: k < i < |xs| ==> g[i] == G(xs, ys, k + 1, i) && b[i] == H(xs, ys, k + 1, i)
    ensures LowerHolds(lower[..], xs, ys, x0, k + 1) && UpperHoldsRaw(upper[..], xs, ys, x0, k + 1)
    ensures DiagonalHolds(diag[..], xs, ys, x0, k + 1)
  {
    hide ctx.Valid, Packed, G, H, Mul, Inv, Add, Div, S, L, U, ColumnStart, SegmentStart, LowerHolds, UpperHoldsRaw;
    hide LowerRaw, RowRaw, UpperRaw, LowerPivot, UpperPivot;
    var n := |xs|;
    ghost var lower0, upper0 := lower[..], upper[..];
    var lkk, ukk, d := Pivots(ctx, xs, ys, x0, k, g[k], b[k]);
    diag[k] := d;
    var count := n - (k + 1);
    LowerInRange(n, k, n - 1);
    GeneratorStep(ctx, xs, ys, k, lower, lp, rotated, g, b);
    DivideRange(ctx, lower, lp, lkk, count);
    LowerColumnDone(lower0, lower[..], xs, ys, x0, k);
    DivideRange(ctx, rotated, 0, ukk, count);
    ghost var raw := seq(count, p requires 0 <= p < count => UpperRaw(xs, ys, x0, k, k + 1 + p));
    assert forall p: nat :: p < count ==> rotated[p] == raw[p] by { RawByRow(xs, ys, x0, k); }
    CopyUpperRow(upper, rotated, n, k, start, raw);
    UpperRowDone(upper0, upper[..], raw, xs, ys, x0, k);
  }

  lemma RawByRow(xs: seq<Byte>, ys: seq<Byte>, x0: Byte, k: nat)
    requires |xs| == |ys| && k < |xs|
    ensures forall p: nat :: k + 1 + p < |xs| ==>
      Div(RowRaw(xs, ys, k, p), UpperPivot(xs, ys, x0, k)) == UpperRaw(xs, ys, x0, k, k + 1 + p)
  {
    hide Div, Mul, Add, UpperPivot, H;
  }

  // ---------------------------------------------------------------- the whole factorisation

  /** The last loop of the factorisation scales column j of U by (x0 + yj). */
  method ScaleColumns(ctx: Gf256Ctx, xs: seq<Byte>, ys: seq<Byte>, x0: Byte, upper: array<Byte>)
    requires ctx.Valid() && Points(xs, ys, x0) && upper.Length == Packed(|xs|) && upper != ctx.invTable
    requires |xs| > 0 && UpperHoldsRaw(upper[..], xs, ys, x0, |xs| - 1)
    modifies upper
    ensures UpperHolds(upper[..], xs, ys, x0)
  {
    hide ctx.Valid, Packed, Add, Mul, U, UpperRaw, SegmentStart;
    var n := |xs|;
    var row, j := 0, n - 1;
    LastSegment(n);
    forall k: nat, i: nat | k < i < n
      ensures UpperAt(n, k, i) < upper.Length
    {
      UpperInRange(n, k, i);
    }
    while j > 0
      invariant 0 <= j < n && row == SegmentStart(n, j)
      invariant forall k: nat, i: nat :: k < i < n ==> UpperAt(n, k, i) < upper.Length
      invariant forall k: nat, i: nat :: k < i < n ==>
        upper[UpperAt(n, k, i)] == if i <= j then UpperRaw(xs, ys, x0, k, i) else U(xs, ys, x0, k, i)
    {
      SegmentStartMonotone(n, 0, j);
      PackedSizes(n);
      ghost var before := upper[..];
      ScaleRange(ctx, upper, row, Add(x0, ys[j]), j);
      forall k: nat, i: nat | k < i < n
        ensures upper[UpperAt(n, k, i)] == if i <= j - 1 then UpperRaw(xs, ys, x0, k, i) else U(xs, ys, x0, k, i)
      {
        if i < j {
          SegmentStartMonotone(n, i, j);
        } else if j < i {
          SegmentStartMonotone(n, j, i);
        } else {
          UpperByGenerators(xs, ys, x0, k, j);
        }
        assert upper[UpperAt(n, k, i)] ==
          if i == j then Mul(before[UpperAt(n, k, i)], Add(x0, ys[j])) else before[UpperAt(n, k, i)];
      }
      row := row + j;
      SegmentStep(n, j);
      j := j - 1;
    }
  }

  lemma LastSegment(n: nat)
    requires n > 0
    ensures SegmentStart(n, n - 1) == 0
  {
  }

  lemma SegmentStep(n: nat, j: nat)
    requires 0 < j < n
    ensures SegmentStart(n, j - 1) == SegmentStart(n, j) + j
  {
  }

  /**
   * GenerateLDUDecomposition. The arrays it fills hold the unit lower triangle, the diagonal and
   * the unit upper triangle of the scaled Cauchy matrix of the received rows and missing columns.
   */
  method GenerateLDUDecomposition(ctx: Gf256Ctx, xs: seq<Byte>, ys: seq<Byte>, x0: Byte,
    lower: array<Byte>, diag: array<Byte>, upper: array<Byte>)
    requires ctx.Valid() && Points(xs, ys, x0) && 0 < |xs| <= 256
    requires lower.Length == Packed(|xs|) && upper.Length == Packed(|xs|) && diag.Length == |xs|
    requires lower != diag && lower != upper && diag != upper && ctx.invTable !in {lower, diag, upper}
    modifies lower, diag, upper
    ensures LowerHolds(lower[..], xs, ys, x0, |xs| - 1)
    ensures DiagonalHolds(diag[..], xs, ys, x0, |xs|)
    ensures UpperHolds(upper[..], xs, ys, x0)
  {
    hide ctx.Valid, Packed, G, H, D, UpperHolds, UpperHoldsRaw, LowerHolds;
    var g, b := new Byte[256], new Byte[256];
    FillOnes(g, |xs|);
    FillOnes(b, |xs|);
    var rotated := new Byte[256];
    FactorAll(ctx, xs, ys, x0, lower, diag, upper, rotated, g, b);
    ScaleColumns(ctx, xs, ys, x0, upper);
    diag[|xs| - 1] := LastEntry(ctx, xs, ys, x0, g[|xs| - 1], b[|xs| - 1]);
    DiagonalComplete(diag[..], xs, ys, x0);
  }

  method FillOnes(a: array<Byte>, n: nat)
    requires n <= a.Length
    modifies a
    ensures forall i: nat :: i < n ==> a[i] == 1
  {
    for i := 0 to n
      invariant forall m: nat :: m < i ==> a[m] == 1
    {
      a[i] := 1;
    }
  }

  /** The outer loop of the factorisation, over all steps but the last. */
  method FactorAll(ctx: Gf256Ctx, xs: seq<Byte>, ys: seq<Byte>, x0: Byte,
    lower: array<Byte>, diag: array<Byte>, upper: array<Byte>, rotated: array<Byte>, g: array<Byte>, b: array<Byte>)
    requires ctx.Valid() && Points(xs, ys, x0) && 0 < |xs| <= 256
    requires Buffers(ctx, |xs|, lower, diag, upper, rotated, g, b)
    requires forall i: nat :: i < |xs| ==> g[i] == 1 && b[i] == 1
    modifies lower, diag, upper, rotated, g, b
    ensures g[|xs| - 1] == G(xs, ys, |xs| - 1, |xs| - 1) && b[|xs| - 1] == H(xs, ys, |xs| - 1, |xs| - 1)
    ensures LowerHolds(lower[..], xs, ys, x0, |xs| - 1) && UpperHoldsRaw(upper[..], xs, ys, x0, |xs| - 1)
    ensures DiagonalHolds(diag[..], xs, ys, x0, |xs| - 1)
  {
    hide ctx.Valid, Packed, G, H, UpperRaw, UpperAt, UpperHoldsRaw, LowerHolds;
    var n := |xs|;
    Start(xs, ys, x0, lower[..], upper[..]);
    var lp, lastU, firstOffset := 0, (n - 1) * n / 2 - 1, 0;
    if n >= 2 {
      FirstPlace(n);
    }
    for k := 0 to n - 1
      invariant lp == ColumnStart(n, k)
      invariant k + 1 < n ==> lastU + firstOffset == UpperAt(n, k, k + 1)
      invariant forall i: nat :: k <= i < n ==> g[i] == G(xs, ys, k, i) && b[i] == H(xs, ys, k, i)
      invariant LowerHolds(lower[..], xs, ys, x0, k) && UpperHoldsRaw(upper[..], xs, ys, x0, k)
      invariant DiagonalHolds(diag[..], xs, ys, x0, k)
    {
      FactorStep(ctx, xs, ys, x0, k, lower, diag, upper, rotated, g, b, lp, lastU + firstOffset);
      lp := lp + (n - (k + 1));
      if k + 2 < n {
        NextRow(n, k);
      }
      firstOffset := firstOffset - (k + 2);
    }
  }

  method LastEntry(ctx: Gf256Ctx, xs: seq<Byte>, ys: seq<Byte>, x0: Byte, gn: Byte, bn: Byte)
    returns (d: Byte)
    requires ctx.Valid() && Points(xs, ys, x0) && 0 < |xs|
    requires gn == G(xs, ys, |xs| - 1, |xs| - 1) && bn == H(xs, ys, |xs| - 1, |xs| - 1)
    ensures d == D(xs, ys, x0, |xs| - 1)
  {
    hide G, H, Mul, Add, Inv, S;
    var xn, yn := xs[|xs| - 1], ys[|xs| - 1];
    var unn := ctx.Product(bn, Add(x0, yn));
    d := ctx.Quotient(ctx.Product(gn, unn), Add(xn, yn));
    LastDiagonal(xs, ys, x0, |xs| - 1);
  }

  lemma DiagonalComplete(diag: seq<Byte>, xs: seq<Byte>, ys: seq<Byte>, x0: Byte)
    requires |xs| == |ys| == |diag| > 0
    requires DiagonalHolds(diag, xs, ys, x0, |xs| - 1) && diag[|xs| - 1] == D(xs, ys, x0, |xs| - 1)
    ensures DiagonalHolds(diag, xs, ys, x0, |xs|)
  {
    hide D;
  }

  lemma Start(xs: seq<Byte>, ys: seq<Byte>, x0: Byte, lower: seq<Byte>, upper: seq<Byte>)
    requires |xs| == |ys| && |lower| == Packed(|xs|) && |upper| == Packed(|xs|)
    ensures LowerHolds(lower, xs, ys, x0, 0) && UpperHoldsRaw(upper, xs, ys, x0, 0)
    ensures forall i: nat :: i < |xs| ==> G(xs, ys, 0, i) == 1
    ensures forall i: nat :: i < |xs| ==> H(xs, ys, 0, i) == 1
  {
  }

  lemma FirstPlace(n: nat)
    requires n >= 2
    ensures UpperAt(n, 0, 1) == (n - 1) * n / 2 - 1
  {
    assert (n - 1) * n == n * (n - 1);
    FirstRow(n);
  }
}
