/**
 * The erasure code: cm256_encode writes recovery blocks, cm256_decode turns any N blocks with
 * distinct indices back into the N originals, in place.
 */
module Cm256 {
  import opened Bytes
  import opened Gf256
  import opened Gf256Tables
  import opened Gf256Kernels
  import opened Cauchy
  import opened Cm256Factor

  // ---------------------------------------------------------------- what the code means

  datatype Params = Params(OriginalCount: int, RecoveryCount: int, BlockBytes: int)

  /** Equal-sized original blocks. */
  ghost predicate Rectangular(data: seq<seq<Byte>>, bytes: nat)
  {
    |data| <= 256 && forall j :: 0 <= j < |data| ==> |data[j]| == bytes
  }

  /** Byte t of every original. */
  ghost function Column(data: seq<seq<Byte>>, bytes: nat, t: nat): (c: seq<Byte>)
    requires Rectangular(data, bytes) && t < bytes
    ensures |c| == |data|
  {
    seq(|data|, j requires 0 <= j < |data| => data[j][t])
  }

  /** Recovery row x over the first n originals that are not skipped. */
  ghost function SumRow(x: Byte, x0: Byte, data: seq<seq<Byte>>, bytes: nat, n: nat, skip: set<nat>): (r: seq<Byte>)
    requires Rectangular(data, bytes) && n <= |data|
    ensures |r| == bytes
  {
    seq(bytes, t requires 0 <= t < bytes => RowSum(x, x0, Column(data, bytes, t), n, skip))
  }

  /** The block with a given index: an original, a copy when there is only one, or a Cauchy combination. */
  ghost function Encoded(data: seq<seq<Byte>>, bytes: nat, index: Byte): (r: seq<Byte>)
    requires Rectangular(data, bytes) && 0 < |data| < 256
    ensures |r| == bytes
  {
    if index < |data| then data[index]
    else if |data| == 1 then data[0]
    else SumRow(index, |data|, data, bytes, |data|, {})
  }

  lemma SumRowNext(x: Byte, x0: Byte, data: seq<seq<Byte>>, bytes: nat, n: nat)
    requires Rectangular(data, bytes) && n < |data|
    ensures AddRow(SumRow(x, x0, data, bytes, n, {}), MulRow(data[n], Element(x, x0, n)))
         == SumRow(x, x0, data, bytes, n + 1, {})
  {
    hide Add, Mul, Element;
    forall t | 0 <= t < bytes
      ensures Add(RowSum(x, x0, Column(data, bytes, t), n, {}), Mul(data[n][t], Element(x, x0, n)))
           == RowSum(x, x0, Column(data, bytes, t), n + 1, {})
    {
      MulComm(data[n][t], Element(x, x0, n));
    }
  }

  lemma SumRowFirst(x: Byte, x0: Byte, data: seq<seq<Byte>>, bytes: nat)
    requires Rectangular(data, bytes) && 0 < |data|
    ensures MulRow(data[0], Element(x, x0, 0)) == SumRow(x, x0, data, bytes, 1, {})
  {
    hide Add, Mul, Element;
    forall t | 0 <= t < bytes
      ensures Mul(data[0][t], Element(x, x0, 0)) == RowSum(x, x0, Column(data, bytes, t), 1, {})
    {
      MulComm(data[0][t], Element(x, x0, 0));
      AddZero(Mul(Element(x, x0, 0), data[0][t]));
      assert RowSum(x, x0, Column(data, bytes, t), 0, {}) == 0;
    }
  }

  /** In the row of ones the next term is the original itself. */
  lemma SumRowOnes(x0: Byte, data: seq<seq<Byte>>, bytes: nat, n: nat)
    requires Rectangular(data, bytes) && n < |data| && n != x0
    ensures AddRow(SumRow(x0, x0, data, bytes, n, {}), data[n]) == SumRow(x0, x0, data, bytes, n + 1, {})
    ensures n == 0 ==> data[0] == SumRow(x0, x0, data, bytes, 1, {})
  {
    hide Add, Mul, Element;
    FirstRowIsOnes(x0, n);
    UnitRow(data[n]);
    SumRowNext(x0, x0, data, bytes, n);
    if n == 0 {
      SumRowFirst(x0, x0, data, bytes);
    }
  }

  // ---------------------------------------------------------------- blocks

  class Block {
    const Data: array<Byte>
    var Index: Byte

    constructor (data: array<Byte>, index: Byte)
      ensures Data == data && Index == index
    {
      Data := data;
      Index := index;
    }
  }

  /** Blocks are separate objects with separate buffers of at least the given size. */
  ghost predicate Separate(ctx: Gf256Ctx, blocks: seq<Block>, bytes: nat)
  {
    && (forall i, j :: 0 <= i < j < |blocks| ==> blocks[i] != blocks[j] && blocks[i].Data != blocks[j].Data)
    && (forall i :: 0 <= i < |blocks| ==> blocks[i].Data.Length >= bytes && blocks[i].Data != ctx.invTable)
  }

  /** dst += src * c on the first bytes of two separate buffers. */
  method AddScaled(ctx: Gf256Ctx, dst: array<Byte>, c: Byte, src: array<Byte>, bytes: nat)
    requires ctx.Valid() && dst != ctx.invTable && dst != src && bytes <= dst.Length && bytes <= src.Length
    modifies dst
    ensures dst[..bytes] == AddRow(old(dst[..bytes]), MulRow(src[..bytes], c))
  {
    hide ctx.Valid, AddRow, MulRow;
    MulAddMem(ctx, dst, 0, c, src, 0, bytes);
    assert dst[..bytes] == dst[..][..bytes];
    assert dst[0..bytes] == dst[..bytes] && src[0..bytes] == src[..bytes];
  }

  /** getMatrixElement. */
  method GetMatrixElement(ctx: Gf256Ctx, x: Byte, x0: Byte, y: Byte) returns (e: Byte)
    requires ctx.Valid()
    ensures e == Element(x, x0, y)
  {
    e := ctx.Quotient(Add(y, x0), Add(x, y));
  }

  class Encoder {
    const ctx: Gf256Ctx

    constructor (ctx: Gf256Ctx)
      ensures this.ctx == ctx
    {
      this.ctx := ctx;
    }

    /** The row of ones: a parity of the originals. */
    method EncodeOnes(originals: seq<Block>, bytes: nat, out: array<Byte>, oo: nat, ghost data: seq<seq<Byte>>)
      requires ctx.Valid() && out != ctx.invTable
      requires 0 < bytes && oo + bytes <= out.Length && 2 <= |originals| == |data| < 256
      requires Rectangular(data, bytes) && Separate(ctx, originals, bytes)
      requires forall j :: 0 <= j < |originals| ==> originals[j].Data != out && originals[j].Data[..bytes] == data[j]
      modifies out
      ensures out[..] == Splice(old(out[..]), oo, SumRow(|data|, |data|, data, bytes, |data|, {}))
    {
      hide ctx.Valid, AddRow, MulRow, SumRow, Element, Splice;
      var n := |originals|;
      ghost var before := out[..];
      DataSlice(originals, bytes, data);
      AddSetMem(out, oo, originals[0].Data, 0, originals[1].Data, 0, bytes);
      SumRowOnes(n, data, bytes, 0);
      SumRowOnes(n, data, bytes, 1);
      for j := 2 to n
        invariant out[..] == Splice(before, oo, SumRow(n, n, data, bytes, j, {}))
      {
        DataSlice(originals, bytes, data);
        SumRowOnes(n, data, bytes, j);
        ghost var here, next := SumRow(n, n, data, bytes, j, {}), SumRow(n, n, data, bytes, j + 1, {});
        SpliceRead(before, oo, here, out[..]);
        AddMem(out, oo, originals[j].Data, 0, bytes);
        SpliceTwice(before, oo, here, next);
      }
    }

    /** Any other row of the matrix. */
    method EncodeCauchy(originals: seq<Block>, index: Byte, bytes: nat, out: array<Byte>, oo: nat,
      ghost data: seq<seq<Byte>>)
      requires ctx.Valid() && out != ctx.invTable
      requires 0 < bytes && oo + bytes <= out.Length && 2 <= |originals| == |data| < index
      requires Rectangular(data, bytes) && Separate(ctx, originals, bytes)
      requires forall j :: 0 <= j < |originals| ==> originals[j].Data != out && originals[j].Data[..bytes] == data[j]
      modifies out
      ensures out[..] == Splice(old(out[..]), oo, SumRow(index, |data|, data, bytes, |data|, {}))
    {
      hide ctx.Valid, AddRow, MulRow, SumRow, Element, Splice;
      var n := |originals|;
      ghost var before := out[..];
      DataSlice(originals, bytes, data);
      var first := GetMatrixElement(ctx, index, n, 0);
      ElementIsProper(index, n, 0);
      MulMem(ctx, out, oo, originals[0].Data, 0, first, bytes);
      SumRowFirst(index, n, data, bytes);
      for j := 1 to n
        invariant out[..] == Splice(before, oo, SumRow(index, n, data, bytes, j, {}))
      {
        DataSlice(originals, bytes, data);
        var element := GetMatrixElement(ctx, index, n, j);
        SumRowNext(index, n, data, bytes, j);
        ghost var here, next := SumRow(index, n, data, bytes, j, {}), SumRow(index, n, data, bytes, j + 1, {});
        SpliceRead(before, oo, here, out[..]);
        MulAddMem(ctx, out, oo, element, originals[j].Data, 0, bytes);
        SpliceTwice(before, oo, here, next);
      }
    }

    /** cm256_encode_block: one recovery block, written at offset oo of the output buffer. */
    method EncodeBlock(originals: seq<Block>, index: Byte, bytes: nat, out: array<Byte>, oo: nat,
      ghost data: seq<seq<Byte>>)
      requires ctx.Valid() && out != ctx.invTable
      requires 0 < bytes && oo + bytes <= out.Length && 0 < |originals| == |data| <= index
      requires Rectangular(data, bytes) && Separate(ctx, originals, bytes)
      requires forall j :: 0 <= j < |originals| ==> originals[j].Data != out && originals[j].Data[..bytes] == data[j]
      modifies out
      ensures out[..] == Splice(old(out[..]), oo, Encoded(data, bytes, index))
    {
      hide ctx.Valid, SumRow;
      if |originals| == 1 {
        forall t | 0 <= t < bytes {
          out[oo + t] := originals[0].Data[t];
        }
        assert out[..] == Splice(old(out[..]), oo, data[0]);
      } else if index == |originals| {
        EncodeOnes(originals, bytes, out, oo, data);
      } else {
        EncodeCauchy(originals, index, bytes, out, oo, data);
      }
    }

    /** cm256_encode: all recovery blocks, end to end in the output buffer. */
    method Encode(params: Params, originals: seq<Block>, out: array?<Byte>, ghost data: seq<seq<Byte>>)
      returns (result: int)
      requires ctx.Valid() && out != ctx.invTable
      requires ValidParams(params) && out != null ==>
        && |originals| == |data| == params.OriginalCount
        && out.Length >= params.RecoveryCount * params.BlockBytes
        && Rectangular(data, params.BlockBytes) && Separate(ctx, originals, params.BlockBytes)
        && forall j :: 0 <= j < |originals| ==> originals[j].Data != out && originals[j].Data[..params.BlockBytes] == data[j]
      modifies out
      ensures result == ParamsError(params) || (ParamsError(params) == 0 && out == null && result == -3)
      ensures result == 0 ==> out != null && forall m: nat :: m < params.RecoveryCount ==>
        Slot(out[..], m, params.BlockBytes) == Encoded(data, params.BlockBytes, params.OriginalCount + m)
    {
      hide ctx.Valid, Encoded;
      if params.OriginalCount <= 0 || params.RecoveryCount <= 0 || params.BlockBytes <= 0 {
        return -1;
      }
      if params.OriginalCount + params.RecoveryCount > 256 {
        return -2;
      }
      if out == null {
        return -3;
      }
      var offset, bytes := 0, params.BlockBytes;
      for block := 0 to params.RecoveryCount
        invariant offset == block * bytes
        invariant forall m: nat :: m < block ==> Slot(out[..], m, bytes) == Encoded(data, bytes, params.OriginalCount + m)
      {
        SlotFits(block, params.RecoveryCount, bytes);
        ghost var before := out[..];
        EncodeBlock(originals, params.OriginalCount + block, bytes, out, offset, data);
        SlotWritten(before, out[..], block, bytes, Encoded(data, bytes, params.OriginalCount + block));
        offset := offset + bytes;
      }
      return 0;
    }
  }

  predicate ValidParams(params: Params)
  {
    params.OriginalCount > 0 && params.RecoveryCount > 0 && params.BlockBytes > 0
    && params.OriginalCount + params.RecoveryCount <= 256
  }

  /** The code both entry points return for parameters they refuse. */
  function ParamsError(params: Params): int
  {
    if params.OriginalCount <= 0 || params.RecoveryCount <= 0 || params.BlockBytes <= 0 then -1
    else if params.OriginalCount + params.RecoveryCount > 256 then -2
    else 0
  }

  /** The m-th of equal slots in a buffer, empty when it does not fit. */
  ghost function Slot(s: seq<Byte>, m: nat, bytes: nat): seq<Byte>
  {
    if m * bytes + bytes <= |s| then s[m * bytes..m * bytes + bytes] else []
  }

  lemma {:induction false} SlotFits(m: nat, count: nat, bytes: nat)
    requires m < count
    ensures m * bytes + bytes <= count * bytes
    decreases count
  {
    assert count * bytes == (count - 1) * bytes + bytes;
    if m < count - 1 {
      SlotFits(m, count - 1, bytes);
    }
  }

  lemma SlotWritten(before: seq<Byte>, after: seq<Byte>, m: nat, bytes: nat, t: seq<Byte>)
    requires m * bytes + bytes <= |before| && |t| == bytes && after == Splice(before, m * bytes, t)
    ensures Slot(after, m, bytes) == t
    ensures forall k: nat :: k < m ==> Slot(after, k, bytes) == Slot(before, k, bytes)
  {
    forall k: nat | k < m
      ensures Slot(after, k, bytes) == Slot(before, k, bytes)
    {
      SlotFits(k, m, bytes);
      SpliceBelow(before, m * bytes, t, k * bytes, bytes);
    }
  }

  lemma SpliceBelow(s: seq<Byte>, at: nat, t: seq<Byte>, lo: nat, bytes: nat)
    requires at + |t| <= |s| && lo + bytes <= at
    ensures Splice(s, at, t)[lo..lo + bytes] == s[lo..lo + bytes]
  {
  }

  lemma DataSlice(originals: seq<Block>, bytes: nat, data: seq<seq<Byte>>)
    requires |originals| == |data|
    requires forall j :: 0 <= j < |originals| ==> bytes <= originals[j].Data.Length && originals[j].Data[..bytes] == data[j]
    ensures forall j :: 0 <= j < |originals| ==> originals[j].Data[0..bytes] == data[j]
  {
  }

  lemma SpliceRead(s: seq<Byte>, at: nat, t: seq<Byte>, r: seq<Byte>)
    requires at + |t| <= |s| && r == Splice(s, at, t)
    ensures r[at..at + |t|] == t
  {
  }

  lemma SpliceTwice(s: seq<Byte>, at: nat, t: seq<Byte>, t': seq<Byte>)
    requires at + |t| <= |s| && |t'| == |t|
    ensures Splice(Splice(s, at, t), at, t') == Splice(s, at, t')
  {
  }
}
