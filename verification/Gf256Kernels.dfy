/**
 * The bulk kernels of gf256_ctx. Each works through its range in vector steps of 16 (or 64)
 * bytes, then words of 8 and 4 bytes, then single bytes from the end. A vector or word step is
 * so many byte operations whose loads all come before their stores, which is what a forall
 * assignment means. Each kernel is proved, for every length, to be one field operation per byte.
 */
module Gf256Kernels {
  import opened Bytes
  import opened Gf256
  import opened Gf256Tables

  // ---------------------------------------------------------------- what the kernels compute

  ghost function MulRow(xs: seq<Byte>, y: Byte): (r: seq<Byte>)
    ensures |r| == |xs|
  {
    seq(|xs|, i requires 0 <= i < |xs| => Mul(xs[i], y))
  }

  ghost function AddRow(xs: seq<Byte>, ys: seq<Byte>): (r: seq<Byte>)
    requires |xs| == |ys|
    ensures |r| == |xs|
  {
    seq(|xs|, i requires 0 <= i < |xs| => Add(xs[i], ys[i]))
  }

  /** s with the bytes from position at on replaced by t. */
  ghost function Splice(s: seq<Byte>, at: nat, t: seq<Byte>): (r: seq<Byte>)
    requires at + |t| <= |s|
    ensures |r| == |s|
  {
    s[..at] + t + s[at + |t|..]
  }

  lemma UnitRow(xs: seq<Byte>)
    ensures MulRow(xs, 1) == xs
  {
    hide Mul;
    forall i | 0 <= i < |xs|
      ensures Mul(xs[i], 1) == xs[i]
    {
      MulOne(xs[i]);
    }
  }

  lemma ZeroRow(xs: seq<Byte>)
    ensures MulRow(xs, 0) == seq<Byte>(|xs|, i => 0)
  {
    hide Mul;
    ZeroOperand();
  }

  lemma ZeroFactor(zs: seq<Byte>, xs: seq<Byte>)
    requires |zs| == |xs|
    ensures AddRow(zs, MulRow(xs, 0)) == zs
  {
    hide Mul, Add;
    forall i | 0 <= i < |xs|
      ensures Add(zs[i], Mul(xs[i], 0)) == zs[i]
    {
      MulZero(xs[i]);
      AddZero(zs[i]);
    }
  }

  // ---------------------------------------------------------------- memory

  /** Two byte ranges that are the same range or lie in different buffers. */
  ghost predicate Restrict(z: array<Byte>, zo: nat, x: array<Byte>, xo: nat, bytes: nat)
  {
    zo + bytes <= z.Length && xo + bytes <= x.Length && (z == x ==> zo == xo)
  }

  /** The first t bytes at offset zo are those of the target, all others what they were before. */
  ghost predicate Progress(z: array<Byte>, before: seq<Byte>, zo: nat, t: nat, target: seq<Byte>)
    requires |before| == z.Length && t <= |target| && zo + |target| <= z.Length
    reads z
  {
    forall k: nat :: k < z.Length ==> z[k] == if zo <= k < zo + t then target[k - zo] else before[k]
  }

  // ---------------------------------------------------------------- addition

  method AddLanes(z: array<Byte>, zo: nat, x: array<Byte>, xo: nat, t: nat, n: nat)
    requires z != x && zo + t + n <= z.Length && xo + t + n <= x.Length
    modifies z
    ensures forall k: nat :: k < z.Length ==> z[k] == if zo + t <= k < zo + t + n then Add(old(z[k]), x[k - zo + xo]) else old(z[k])
  {
    hide Add;
    forall i | 0 <= i < n {
      z[zo + t + i] := Add(z[zo + t + i], x[xo + t + i]);
    }
  }

  method AddTail(z: array<Byte>, zo: nat, x: array<Byte>, xo: nat, t: nat, n: nat)
    requires z != x && zo + t + n <= z.Length && xo + t + n <= x.Length
    modifies z
    ensures forall k: nat :: k < z.Length ==> z[k] == if zo + t <= k < zo + t + n then Add(old(z[k]), x[k - zo + xo]) else old(z[k])
  {
    hide Add;
    var i := n;
    while i > 0
      invariant 0 <= i <= n
      invariant forall k: nat :: k < z.Length ==> z[k] == if zo + t + i <= k < zo + t + n then Add(old(z[k]), x[k - zo + xo]) else old(z[k])
    {
      z[zo + t + i - 1] := Add(z[zo + t + i - 1], x[xo + t + i - 1]);
      i := i - 1;
    }
  }

  method AddWords(z: array<Byte>, zo: nat, x: array<Byte>, xo: nat, t: nat, n: nat)
    requires z != x && zo + t + n <= z.Length && xo + t + n <= x.Length
    modifies z
    ensures forall k: nat :: k < z.Length ==> z[k] == if zo + t <= k < zo + t + n then Add(old(z[k]), x[k - zo + xo]) else old(z[k])
  {
    hide Add;
    var done := 0;
    if n - done >= 8 {
      AddLanes(z, zo, x, xo, t + done, 8);
      done := done + 8;
    }
    if n - done >= 4 {
      AddLanes(z, zo, x, xo, t + done, 4);
      done := done + 4;
    }
    AddTail(z, zo, x, xo, t + done, n - done);
  }

  /** gf256_add_mem, x[] += y[]. */
  method AddMem(z: array<Byte>, zo: nat, x: array<Byte>, xo: nat, bytes: nat)
    requires Restrict(z, zo, x, xo, bytes) && z != x
    modifies z
    ensures z[..] == Splice(old(z[..]), zo, AddRow(old(z[zo..zo + bytes]), old(x[xo..xo + bytes])))
  {
    hide Add;
    ghost var before, target := z[..], AddRow(z[zo..zo + bytes], x[xo..xo + bytes]);
    var t := 0;
    while bytes - t >= 64
      invariant 0 <= t <= bytes
      invariant Progress(z, before, zo, t, target)
      invariant forall j: nat :: t <= j < bytes ==> target[j] == Add(before[zo + j], x[xo + j])
    {
      AddLanes(z, zo, x, xo, t, 64);
      t := t + 64;
    }
    while bytes - t >= 16
      invariant 0 <= t <= bytes
      invariant Progress(z, before, zo, t, target)
      invariant forall j: nat :: t <= j < bytes ==> target[j] == Add(before[zo + j], x[xo + j])
    {
      AddLanes(z, zo, x, xo, t, 16);
      t := t + 16;
    }
    AddWords(z, zo, x, xo, t, bytes - t);
    assert z[..] == Splice(before, zo, target);
  }

  method Add2Lanes(z: array<Byte>, zo: nat, x: array<Byte>, xo: nat, y: array<Byte>, yo: nat, t: nat, n: nat)
    requires z != x && z != y && zo + t + n <= z.Length && xo + t + n <= x.Length && yo + t + n <= y.Length
    modifies z
    ensures forall k: nat :: k < z.Length ==> z[k] == if zo + t <= k < zo + t + n then Add(old(z[k]), Add(x[k - zo + xo], y[k - zo + yo])) else old(z[k])
  {
    hide Add;
    forall i | 0 <= i < n {
      z[zo + t + i] := Add(z[zo + t + i], Add(x[xo + t + i], y[yo + t + i]));
    }
  }

  method Add2Tail(z: array<Byte>, zo: nat, x: array<Byte>, xo: nat, y: array<Byte>, yo: nat, t: nat, n: nat)
    requires z != x && z != y && zo + t + n <= z.Length && xo + t + n <= x.Length && yo + t + n <= y.Length
    modifies z
    ensures forall k: nat :: k < z.Length ==> z[k] == if zo + t <= k < zo + t + n then Add(old(z[k]), Add(x[k - zo + xo], y[k - zo + yo])) else old(z[k])
  {
    hide Add;
    var i := n;
    while i > 0
      invariant 0 <= i <= n
      invariant forall k: nat :: k < z.Length ==> z[k] == if zo + t + i <= k < zo + t + n then Add(old(z[k]), Add(x[k - zo + xo], y[k - zo + yo])) else old(z[k])
    {
      z[zo + t + i - 1] := Add(z[zo + t + i - 1], Add(x[xo + t + i - 1], y[yo + t + i - 1]));
      i := i - 1;
    }
  }

  method Add2Words(z: array<Byte>, zo: nat, x: array<Byte>, xo: nat, y: array<Byte>, yo: nat, t: nat, n: nat)
    requires z != x && z != y && zo + t + n <= z.Length && xo + t + n <= x.Length && yo + t + n <= y.Length
    modifies z
    ensures forall k: nat :: k < z.Length ==> z[k] == if zo + t <= k < zo + t + n then Add(old(z[k]), Add(x[k - zo + xo], y[k - zo + yo])) else old(z[k])
  {
    hide Add;
    var done := 0;
    if n - done >= 8 {
      Add2Lanes(z, zo, x, xo, y, yo, t + done, 8);
      done := done + 8;
    }
    if n - done >= 4 {
      Add2Lanes(z, zo, x, xo, y, yo, t + done, 4);
      done := done + 4;
    }
    Add2Tail(z, zo, x, xo, y, yo, t + done, n - done);
  }

  /** gf256_add2_mem, z[] += x[] + y[]. */
  method Add2Mem(z: array<Byte>, zo: nat, x: array<Byte>, xo: nat, y: array<Byte>, yo: nat, bytes: nat)
    requires Restrict(z, zo, x, xo, bytes) && Restrict(z, zo, y, yo, bytes) && z != x && z != y
    modifies z
    ensures z[..] == Splice(old(z[..]), zo, AddRow(old(z[zo..zo + bytes]), AddRow(old(x[xo..xo + bytes]), old(y[yo..yo + bytes]))))
  {
    hide Add;
    ghost var before, target := z[..], AddRow(z[zo..zo + bytes], AddRow(x[xo..xo + bytes], y[yo..yo + bytes]));
    var t := 0;
    while bytes - t >= 16
      invariant 0 <= t <= bytes
      invariant Progress(z, before, zo, t, target)
      invariant forall j: nat :: t <= j < bytes ==> target[j] == Add(before[zo + j], Add(x[xo + j], y[yo + j]))
    {
      Add2Lanes(z, zo, x, xo, y, yo, t, 16);
      t := t + 16;
    }
    Add2Words(z, zo, x, xo, y, yo, t, bytes - t);
    assert z[..] == Splice(before, zo, target);
  }

  method AddSetLanes(z: array<Byte>, zo: nat, x: array<Byte>, xo: nat, y: array<Byte>, yo: nat, t: nat, n: nat)
    requires z != x && z != y && zo + t + n <= z.Length && xo + t + n <= x.Length && yo + t + n <= y.Length
    modifies z
    ensures forall k: nat :: k < z.Length ==> z[k] == if zo + t <= k < zo + t + n then Add(x[k - zo + xo], y[k - zo + yo]) else old(z[k])
  {
    hide Add;
    forall i | 0 <= i < n {
      z[zo + t + i] := Add(x[xo + t + i], y[yo + t + i]);
    }
  }

  method AddSetTail(z: array<Byte>, zo: nat, x: array<Byte>, xo: nat, y: array<Byte>, yo: nat, t: nat, n: nat)
    requires z != x && z != y && zo + t + n <= z.Length && xo + t + n <= x.Length && yo + t + n <= y.Length
    modifies z
    ensures forall k: nat :: k < z.Length ==> z[k] == if zo + t <= k < zo + t + n then Add(x[k - zo + xo], y[k - zo + yo]) else old(z[k])
  {
    hide Add;
    var i := n;
    while i > 0
      invariant 0 <= i <= n
      invariant forall k: nat :: k < z.Length ==> z[k] == if zo + t + i <= k < zo + t + n then Add(x[k - zo + xo], y[k - zo + yo]) else old(z[k])
    {
      z[zo + t + i - 1] := Add(x[xo + t + i - 1], y[yo + t + i - 1]);
      i := i - 1;
    }
  }

  method AddSetWords(z: array<Byte>, zo: nat, x: array<Byte>, xo: nat, y: array<Byte>, yo: nat, t: nat, n: nat)
    requires z != x && z != y && zo + t + n <= z.Length && xo + t + n <= x.Length && yo + t + n <= y.Length
    modifies z
    ensures forall k: nat :: k < z.Length ==> z[k] == if zo + t <= k < zo + t + n then Add(x[k - zo + xo], y[k - zo + yo]) else old(z[k])
  {
    hide Add;
    var done := 0;
    if n - done >= 8 {
      AddSetLanes(z, zo, x, xo, y, yo, t + done, 8);
      done := done + 8;
    }
    if n - done >= 4 {
      AddSetLanes(z, zo, x, xo, y, yo, t + done, 4);
      done := done + 4;
    }
    AddSetTail(z, zo, x, xo, y, yo, t + done, n - done);
  }

  /** gf256_addset_mem, z[] = x[] + y[]. */
  method AddSetMem(z: array<Byte>, zo: nat, x: array<Byte>, xo: nat, y: array<Byte>, yo: nat, bytes: nat)
    requires Restrict(z, zo, x, xo, bytes) && Restrict(z, zo, y, yo, bytes) && z != x && z != y
    modifies z
    ensures z[..] == Splice(old(z[..]), zo, AddRow(old(x[xo..xo + bytes]), old(y[yo..yo + bytes])))
  {
    hide Add;
    ghost var before, target := z[..], AddRow(x[xo..xo + bytes], y[yo..yo + bytes]);
    var t := 0;
    while bytes - t >= 64
      invariant 0 <= t <= bytes
      invariant Progress(z, before, zo, t, target)
      invariant forall j: nat :: t <= j < bytes ==> target[j] == Add(x[xo + j], y[yo + j])
    {
      AddSetLanes(z, zo, x, xo, y, yo, t, 64);
      t := t + 64;
    }
    while bytes - t >= 16
      invariant 0 <= t <= bytes
      invariant Progress(z, before, zo, t, target)
      invariant forall j: nat :: t <= j < bytes ==> target[j] == Add(x[xo + j], y[yo + j])
    {
      AddSetLanes(z, zo, x, xo, y, yo, t, 16);
      t := t + 16;
    }
    AddSetWords(z, zo, x, xo, y, yo, t, bytes - t);
    assert z[..] == Splice(before, zo, target);
  }

  // ---------------------------------------------------------------- multiplication

  /** memset with zero. */
  method ZeroMem(z: array<Byte>, zo: nat, bytes: nat)
    requires zo + bytes <= z.Length
    modifies z
    ensures z[..] == Splice(old(z[..]), zo, seq<Byte>(bytes, i => 0))
  {
    for i := zo to zo + bytes
      invariant forall k: nat :: k < z.Length ==> z[k] == if zo <= k < i then 0 else old(z[k])
    {
      z[i] := 0;
    }
  }

  /** The two table lookups of a SIMD lane give the product. */
  function SimdLane(ctx: Gf256Ctx, a: Byte, y: Byte): (r: Byte)
    requires ctx.Shape() && ctx.NibblesValid()
    reads ctx.loTable, ctx.hiTable
    ensures r == Mul(a, y)
  {
    MulAdd(y, a % 16, 16 * (a / 16));
    NibbleSum(a);
    Add(ctx.loTable[y, a % 16], ctx.hiTable[y, a / 16])
  }

  method MulVector(ctx: Gf256Ctx, z: array<Byte>, zo: nat, x: array<Byte>, xo: nat, y: Byte, t: nat)
    requires ctx.Valid() && z != ctx.invTable && Restrict(z, zo, x, xo, t + 16)
    modifies z
    ensures forall k: nat :: k < z.Length ==> z[k] == if zo + t <= k < zo + t + 16 then Mul(old(x[k - zo + xo]), y) else old(z[k])
  {
    hide Mul, Add;
    forall i | 0 <= i < 16 {
      z[zo + t + i] := SimdLane(ctx, x[xo + t + i], y);
    }
  }

  method MulLanes(ctx: Gf256Ctx, z: array<Byte>, zo: nat, x: array<Byte>, xo: nat, y: Byte, t: nat, n: nat)
    requires ctx.Valid() && z != ctx.invTable && Restrict(z, zo, x, xo, t + n)
    modifies z
    ensures forall k: nat :: k < z.Length ==> z[k] == if zo + t <= k < zo + t + n then Mul(old(x[k - zo + xo]), y) else old(z[k])
  {
    hide Mul, Add;
    forall i | 0 <= i < n {
      z[zo + t + i] := ctx.Product(x[xo + t + i], y);
    }
  }

  method MulTail(ctx: Gf256Ctx, z: array<Byte>, zo: nat, x: array<Byte>, xo: nat, y: Byte, t: nat, n: nat)
    requires ctx.Valid() && z != ctx.invTable && Restrict(z, zo, x, xo, t + n)
    modifies z
    ensures forall k: nat :: k < z.Length ==> z[k] == if zo + t <= k < zo + t + n then Mul(old(x[k - zo + xo]), y) else old(z[k])
  {
    hide Mul, Add;
    var i := n;
    while i > 0
      invariant 0 <= i <= n
      invariant forall k: nat :: k < z.Length ==> z[k] == if zo + t + i <= k < zo + t + n then Mul(old(x[k - zo + xo]), y) else old(z[k])
    {
      z[zo + t + i - 1] := ctx.Product(x[xo + t + i - 1], y);
      i := i - 1;
    }
  }

  method MulWords(ctx: Gf256Ctx, z: array<Byte>, zo: nat, x: array<Byte>, xo: nat, y: Byte, t: nat, n: nat)
    requires ctx.Valid() && z != ctx.invTable && Restrict(z, zo, x, xo, t + n)
    modifies z
    ensures forall k: nat :: k < z.Length ==> z[k] == if zo + t <= k < zo + t + n then Mul(old(x[k - zo + xo]), y) else old(z[k])
  {
    hide Mul, Add;
    var done := 0;
    if n - done >= 8 {
      MulLanes(ctx, z, zo, x, xo, y, t + done, 8);
      done := done + 8;
    }
    if n - done >= 4 {
      MulLanes(ctx, z, zo, x, xo, y, t + done, 4);
      done := done + 4;
    }
    MulTail(ctx, z, zo, x, xo, y, t + done, n - done);
  }

  /** The part of gf256_mul_mem that uses the tables. */
  method MulByTable(ctx: Gf256Ctx, z: array<Byte>, zo: nat, x: array<Byte>, xo: nat, y: Byte, bytes: nat)
    requires ctx.Valid() && z != ctx.invTable && Restrict(z, zo, x, xo, bytes)
    modifies z
    ensures z[..] == Splice(old(z[..]), zo, MulRow(old(x[xo..xo + bytes]), y))
  {
    hide Mul, Add;
    ghost var before, target := z[..], MulRow(x[xo..xo + bytes], y);
    var t := 0;
    while bytes - t >= 16
      invariant 0 <= t <= bytes
      invariant Progress(z, before, zo, t, target)
      invariant forall j: nat :: t <= j < bytes ==> target[j] == Mul(x[xo + j], y)
    {
      MulVector(ctx, z, zo, x, xo, y, t);
      t := t + 16;
    }
    MulWords(ctx, z, zo, x, xo, y, t, bytes - t);
    assert z[..] == Splice(before, zo, target);
  }

  /** gf256_mul_mem, z[] = x[] * y. With y == 1 the source returns without copying, so z keeps its
   * bytes; the product is then in z only when the call was in place. */
  method MulMem(ctx: Gf256Ctx, z: array<Byte>, zo: nat, x: array<Byte>, xo: nat, y: Byte, bytes: nat)
    requires ctx.Valid() && z != ctx.invTable && Restrict(z, zo, x, xo, bytes)
    modifies z
    ensures y == 1 ==> z[..] == old(z[..])
    ensures y != 1 || z == x ==> z[..] == Splice(old(z[..]), zo, MulRow(old(x[xo..xo + bytes]), y))
  {
    hide ctx.Valid, Mul, Add, MulRow;
    if y <= 1 {
      if y == 0 {
        ZeroRow(x[xo..xo + bytes]);
        ZeroMem(z, zo, bytes);
      } else {
        UnitRow(x[xo..xo + bytes]);
        assert z == x ==> z[..] == Splice(z[..], zo, x[xo..xo + bytes]);
      }
      return;
    }
    MulByTable(ctx, z, zo, x, xo, y, bytes);
  }

  method MulAddVector(ctx: Gf256Ctx, z: array<Byte>, zo: nat, y: Byte, x: array<Byte>, xo: nat, t: nat)
    requires ctx.Valid() && z != ctx.invTable && Restrict(z, zo, x, xo, t + 16) && z != x
    modifies z
    ensures forall k: nat :: k < z.Length ==> z[k] == if zo + t <= k < zo + t + 16 then Add(old(z[k]), Mul(x[k - zo + xo], y)) else old(z[k])
  {
    hide Mul, Add;
    forall i | 0 <= i < 16 {
      z[zo + t + i] := Add(z[zo + t + i], SimdLane(ctx, x[xo + t + i], y));
    }
  }

  method MulAddLanes(ctx: Gf256Ctx, z: array<Byte>, zo: nat, y: Byte, x: array<Byte>, xo: nat, t: nat, n: nat)
    requires ctx.Valid() && z != ctx.invTable && Restrict(z, zo, x, xo, t + n) && z != x
    modifies z
    ensures forall k: nat :: k < z.Length ==> z[k] == if zo + t <= k < zo + t + n then Add(old(z[k]), Mul(x[k - zo + xo], y)) else old(z[k])
  {
    hide Mul, Add;
    forall i | 0 <= i < n {
      z[zo + t + i] := Add(z[zo + t + i], ctx.Product(x[xo + t + i], y));
    }
  }

  method MulAddTail(ctx: Gf256Ctx, z: array<Byte>, zo: nat, y: Byte, x: array<Byte>, xo: nat, t: nat, n: nat)
    requires ctx.Valid() && z != ctx.invTable && Restrict(z, zo, x, xo, t + n) && z != x
    modifies z
    ensures forall k: nat :: k < z.Length ==> z[k] == if zo + t <= k < zo + t + n then Add(old(z[k]), Mul(x[k - zo + xo], y)) else old(z[k])
  {
    hide Mul, Add;
    var i := n;
    while i > 0
      invariant 0 <= i <= n
      invariant forall k: nat :: k < z.Length ==> z[k] == if zo + t + i <= k < zo + t + n then Add(old(z[k]), Mul(x[k - zo + xo], y)) else old(z[k])
    {
      z[zo + t + i - 1] := Add(z[zo + t + i - 1], ctx.Product(x[xo + t + i - 1], y));
      i := i - 1;
    }
  }

  method MulAddWords(ctx: Gf256Ctx, z: array<Byte>, zo: nat, y: Byte, x: array<Byte>, xo: nat, t: nat, n: nat)
    requires ctx.Valid() && z != ctx.invTable && Restrict(z, zo, x, xo, t + n) && z != x
    modifies z
    ensures forall k: nat :: k < z.Length ==> z[k] == if zo + t <= k < zo + t + n then Add(old(z[k]), Mul(x[k - zo + xo], y)) else old(z[k])
  {
    hide Mul, Add;
    var done := 0;
    if n - done >= 8 {
      MulAddLanes(ctx, z, zo, y, x, xo, t + done, 8);
      done := done + 8;
    }
    if n - done >= 4 {
      MulAddLanes(ctx, z, zo, y, x, xo, t + done, 4);
      done := done + 4;
    }
    MulAddTail(ctx, z, zo, y, x, xo, t + done, n - done);
  }

  /** gf256_muladd_mem, z[] += x[] * y. */
  method MulAddMem(ctx: Gf256Ctx, z: array<Byte>, zo: nat, y: Byte, x: array<Byte>, xo: nat, bytes: nat)
    requires ctx.Valid() && z != ctx.invTable && Restrict(z, zo, x, xo, bytes) && z != x
    modifies z
    ensures z[..] == Splice(old(z[..]), zo, AddRow(old(z[zo..zo + bytes]), MulRow(old(x[xo..xo + bytes]), y)))
  {
    hide Mul, Add;
    ghost var before, target := z[..], AddRow(z[zo..zo + bytes], MulRow(x[xo..xo + bytes], y));
    if y <= 1 {
      if y == 1 {
        UnitRow(x[xo..xo + bytes]);
        AddMem(z, zo, x, xo, bytes);
      } else {
        ZeroFactor(z[zo..zo + bytes], x[xo..xo + bytes]);
        assert z[..] == Splice(before, zo, target);
      }
      return;
    }
    var t := 0;
    while bytes - t >= 16
      invariant 0 <= t <= bytes
      invariant Progress(z, before, zo, t, target)
      invariant forall j: nat :: t <= j < bytes ==> target[j] == Add(before[zo + j], Mul(x[xo + j], y))
    {
      MulAddVector(ctx, z, zo, y, x, xo, t);
      t := t + 16;
    }
    MulAddWords(ctx, z, zo, y, x, xo, t, bytes - t);
    assert z[..] == Splice(before, zo, target);
  }

  /** gf256_div_mem, z[] = x[] / y, in place: multiplication by the tabulated inverse. */
  method DivMem(ctx: Gf256Ctx, z: array<Byte>, zo: nat, y: Byte, bytes: nat)
    requires ctx.Valid() && z != ctx.invTable && zo + bytes <= z.Length
    modifies z
    ensures z[..] == Splice(old(z[..]), zo, MulRow(old(z[zo..zo + bytes]), Inv(y)))
  {
    MulMem(ctx, z, zo, z, zo, ctx.Inverse(y), bytes);
  }
}
