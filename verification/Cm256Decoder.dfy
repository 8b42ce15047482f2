/** cm256_decode: any N blocks with distinct indices become the N originals, in place. */
module Cm256Decoder {
  import opened Bytes
  import opened Gf256
  import opened Gf256Tables
  import opened Gf256Kernels
  import opened Cauchy
  import opened Cm256Factor
  import opened Cm256

  // ---------------------------------------------------------------- rows of whole blocks

  /** The rows of the originals that are missing. */
  ghost function MissingRows(data: seq<seq<Byte>>, bytes: nat, ys: seq<Byte>): (v: seq<seq<Byte>>)
    requires Rectangular(data, bytes) && forall m :: 0 <= m < |ys| ==> ys[m] < |data|
    ensures |v| == |ys| && forall m :: 0 <= m < |v| ==> |v[m]| == bytes && v[m] == data[ys[m]]
  {
    seq(|ys|, m requires 0 <= m < |ys| => data[ys[m]])
  }

  /** Residual and Triangle of module Cauchy at every byte position of a block. */
  ghost function ResidualRow(xs: seq<Byte>, ys: seq<Byte>, x0: Byte, v: seq<seq<Byte>>, bytes: nat, k: nat, i: nat): (r: seq<Byte>)
    requires |xs| == |ys| == |v| && k <= |xs| && i < |xs| && Rectangular(v, bytes)
    ensures |r| == bytes
  {
    seq(bytes, t requires 0 <= t < bytes => Residual(xs, ys, x0, Column(v, bytes, t), k, i, |xs|))
  }

  ghost function TriangleRow(xs: seq<Byte>, ys: seq<Byte>, x0: Byte, v: seq<seq<Byte>>, bytes: nat, k: nat, hi: nat): (r: seq<Byte>)
    requires |xs| == |ys| == |v| && k < |xs| && hi <= |xs| && Rectangular(v, bytes)
    ensures |r| == bytes
  {
    seq(bytes, t requires 0 <= t < bytes => Triangle(xs, ys, x0, Column(v, bytes, t), k, hi))
  }

  lemma LowerRow(xs: seq<Byte>, ys: seq<Byte>, x0: Byte, v: seq<seq<Byte>>, bytes: nat, k: nat, i: nat)
    requires Points(xs, ys, x0) && |v| == |xs| && k < i < |xs| && Rectangular(v, bytes)
    ensures AddRow(ResidualRow(xs, ys, x0, v, bytes, k, i), MulRow(ResidualRow(xs, ys, x0, v, bytes, k, k), L(xs, ys, x0, i, k)))
         == ResidualRow(xs, ys, x0, v, bytes, k + 1, i)
  {
    hide Add, Mul, L, Residual, Column;
    forall t | 0 <= t < bytes
      ensures var c := Column(v, bytes, t);
        Add(Residual(xs, ys, x0, c, k, i, |xs|), Mul(Residual(xs, ys, x0, c, k, k, |xs|), L(xs, ys, x0, i, k)))
          == Residual(xs, ys, x0, c, k + 1, i, |xs|)
    {
      var c := Column(v, bytes, t);
      MulComm(Residual(xs, ys, x0, c, k, k, |xs|), L(xs, ys, x0, i, k));
      LowerStep(xs, ys, x0, c, k, i, |xs|);
    }
  }

  lemma DiagonalRow(xs: seq<Byte>, ys: seq<Byte>, x0: Byte, v: seq<seq<Byte>>, bytes: nat, k: nat)
    requires Points(xs, ys, x0) && |v| == |xs| && k < |xs| && Rectangular(v, bytes)
    ensures MulRow(ResidualRow(xs, ys, x0, v, bytes, k, k), Inv(D(xs, ys, x0, k))) == TriangleRow(xs, ys, x0, v, bytes, k, |xs|)
  {
    hide Mul, Inv, D, Residual, Triangle, Column;
    forall t | 0 <= t < bytes
      ensures var c := Column(v, bytes, t);
        Mul(Residual(xs, ys, x0, c, k, k, |xs|), Inv(D(xs, ys, x0, k))) == Triangle(xs, ys, x0, c, k, |xs|)
    {
      DiagonalStep(xs, ys, x0, Column(v, bytes, t), k, |xs|);
    }
  }

  lemma UpperRow(xs: seq<Byte>, ys: seq<Byte>, x0: Byte, v: seq<seq<Byte>>, bytes: nat, k: nat, hi: nat)
    requires Points(xs, ys, x0) && |v| == |xs| && k < hi < |xs| && Rectangular(v, bytes)
    ensures AddRow(TriangleRow(xs, ys, x0, v, bytes, k, hi + 1), MulRow(v[hi], U(xs, ys, x0, k, hi)))
         == TriangleRow(xs, ys, x0, v, bytes, k, hi)
  {
    hide Add, Mul, U, Triangle;
    forall t | 0 <= t < bytes
      ensures var c := Column(v, bytes, t);
        Add(Triangle(xs, ys, x0, c, k, hi + 1), Mul(v[hi][t], U(xs, ys, x0, k, hi))) == Triangle(xs, ys, x0, c, k, hi)
    {
      var c := Column(v, bytes, t);
      MulComm(v[hi][t], U(xs, ys, x0, k, hi));
      UpperStep(xs, ys, x0, c, k, hi);
    }
  }

  lemma SolvedRow(xs: seq<Byte>, ys: seq<Byte>, x0: Byte, v: seq<seq<Byte>>, bytes: nat, k: nat)
    requires Points(xs, ys, x0) && |v| == |xs| && k < |xs| && Rectangular(v, bytes)
    ensures TriangleRow(xs, ys, x0, v, bytes, k, k + 1) == v[k]
  {
    hide Triangle;
    forall t | 0 <= t < bytes
      ensures Triangle(xs, ys, x0, Column(v, bytes, t), k, k + 1) == v[k][t]
    {
      Solved(xs, ys, x0, Column(v, bytes, t), k);
    }
  }

  /** Adding the term of a received original to a recovery row. */
  lemma SkipRow(x: Byte, x0: Byte, data: seq<seq<Byte>>, bytes: nat, skip: set<nat>, r: nat)
    requires Rectangular(data, bytes) && r < |data| && r !in skip
    ensures AddRow(SumRow(x, x0, data, bytes, |data|, skip), MulRow(data[r], Element(x, x0, r)))
         == SumRow(x, x0, data, bytes, |data|, skip + {r})
  {
    hide Add, Mul, Element, RowSum;
    forall t | 0 <= t < bytes
      ensures var c := Column(data, bytes, t);
        Add(RowSum(x, x0, c, |data|, skip), Mul(data[r][t], Element(x, x0, r))) == RowSum(x, x0, c, |data|, skip + {r})
    {
      MulComm(data[r][t], Element(x, x0, r));
      SkipOne(x, x0, Column(data, bytes, t), |data|, skip, r);
    }
  }

  /** Once all received originals are skipped, the recovery rows are the Cauchy system of the missing ones. */
  lemma SystemRow(xs: seq<Byte>, ys: seq<Byte>, x0: Byte, data: seq<seq<Byte>>, bytes: nat, received: set<nat>, i: nat)
    requires Rectangular(data, bytes) && i < |xs| && |xs| == |ys| && ys == Missing(|data|, received)
    ensures SumRow(xs[i], x0, data, bytes, |data|, received)
         == ResidualRow(xs, ys, x0, MissingRows(data, bytes, ys), bytes, 0, i)
  {
    hide RowSum, Residual;
    var v := MissingRows(data, bytes, ys);
    forall t | 0 <= t < bytes
      ensures RowSum(xs[i], x0, Column(data, bytes, t), |data|, received) == Residual(xs, ys, x0, Column(v, bytes, t), 0, i, |xs|)
    {
      RowSumIsResidual(xs, ys, x0, Column(data, bytes, t), Column(v, bytes, t), i, |data|, received);
    }
  }

  // ---------------------------------------------------------------- missing indices

  lemma {:induction false} MissingCount(n: nat, received: set<nat>)
    ensures |Missing(n, received)| + |set r | r in received && r < n| == n
  {
    var low := set r | r in received && r < n;
    if n == 0 {
      assert low == {};
    } else {
      MissingCount(n - 1, received);
      var low' := set r | r in received && r < n - 1;
      if n - 1 in received {
        assert low == low' + {n - 1};
      } else {
        assert low == low';
      }
    }
  }

  /** Missing grows by appending. */
  lemma {:induction false} MissingPrefix(m: nat, n: nat, received: set<nat>)
    requires m <= n
    ensures Missing(m, received) <= Missing(n, received)
    decreases n - m
  {
    if m < n {
      MissingPrefix(m, n - 1, received);
    }
  }

  // ---------------------------------------------------------------- originals and recovery blocks

  /** The items whose index is (low) or is not (!low) that of an original, in the order given. */
  ghost function Pick<T>(items: seq<T>, idx: seq<Byte>, n: nat, low: bool): (r: seq<T>)
    requires |items| == |idx|
    ensures |r| <= |items|
  {
    if items == [] then []
    else
      var last := |items| - 1;
      Pick(items[..last], idx[..last], n, low) + (if (idx[last] < n) == low then [items[last]] else [])
  }

  lemma PickNext<T>(items: seq<T>, idx: seq<Byte>, n: nat, low: bool, i: nat)
    requires |items| == |idx| && i < |items|
    ensures Pick(items[..i + 1], idx[..i + 1], n, low)
         == Pick(items[..i], idx[..i], n, low) + (if (idx[i] < n) == low then [items[i]] else [])
  {
    assert items[..i + 1][..i] == items[..i] && idx[..i + 1][..i] == idx[..i];
  }

  /** The place of item i among those of its kind. */
  ghost function Rank(idx: seq<Byte>, n: nat, low: bool, i: nat): nat
    requires i <= |idx|
  {
    |Pick(idx[..i], idx[..i], n, low)|
  }

  lemma {:induction false} PickLength<T>(items: seq<T>, idx: seq<Byte>, n: nat, low: bool)
    requires |items| == |idx|
    ensures |Pick(items, idx, n, low)| == Rank(idx, n, low, |idx|)
    ensures |Pick(items, idx, n, true)| + |Pick(items, idx, n, false)| == |items|
  {
    assert idx[..|idx|] == idx;
    if items != [] {
      var last := |items| - 1;
      PickLength(items[..last], idx[..last], n, low);
      assert idx[..last][..last] == idx[..last];
    }
  }

  /** Every item is at its rank among those of its kind. */
  lemma {:induction false} PickAtRank<T>(items: seq<T>, idx: seq<Byte>, n: nat, low: bool, i: nat)
    requires |items| == |idx| && i < |items| && (idx[i] < n) == low
    ensures Rank(idx, n, low, i) < |Pick(items, idx, n, low)|
    ensures Pick(items, idx, n, low)[Rank(idx, n, low, i)] == items[i]
  {
    var last := |items| - 1;
    if i == last {
      PickLength(items[..last], idx[..last], n, low);
      assert idx[..last][..last] == idx[..last];
    } else {
      PickAtRank(items[..last], idx[..last], n, low, i);
      assert idx[..last][..i] == idx[..i];
    }
  }

  /** And every picked item comes from one of the given items. */
  lemma {:induction false} PickFrom<T>(items: seq<T>, idx: seq<Byte>, n: nat, low: bool, m: nat) returns (i: nat)
    requires |items| == |idx| && m < |Pick(items, idx, n, low)|
    ensures i < |items| && (idx[i] < n) == low && Rank(idx, n, low, i) == m
    ensures Pick(items, idx, n, low)[m] == items[i]
  {
    var last := |items| - 1;
    if m < |Pick(items[..last], idx[..last], n, low)| {
      i := PickFrom(items[..last], idx[..last], n, low, m);
      assert idx[..last][..i] == idx[..i];
    } else {
      i := last;
      PickLength(items[..last], idx[..last], n, low);
      assert idx[..last][..last] == idx[..last];
    }
  }

  /** No two indices name the same original. */
  ghost predicate NoRepeat(idx: seq<Byte>, n: nat)
  {
    forall i, j :: 0 <= i < j < |idx| && idx[i] < n ==> idx[i] != idx[j]
  }

  ghost function Received(idx: seq<Byte>, n: nat): (r: set<nat>)
  {
    set r: nat | r < n && r in idx
  }

  lemma {:induction false} ReceivedCount(idx: seq<Byte>, n: nat)
    requires NoRepeat(idx, n)
    ensures |Received(idx, n)| == |Pick(idx, idx, n, true)|
  {
    if idx == [] {
      assert Received(idx, n) == {};
    } else {
      var last := |idx| - 1;
      var before := idx[..last];
      assert idx == before + [idx[last]];
      NoRepeatPrefix(idx, n, last);
      ReceivedCount(before, n);
      ReceivedNext(before, idx[last], n);
      hide Received, NoRepeat;
      assert Pick(idx, idx, n, true) == Pick(before, before, n, true) + (if idx[last] < n then [idx[last]] else []);
    }
  }

  lemma NoRepeatPrefix(idx: seq<Byte>, n: nat, i: nat)
    requires NoRepeat(idx, n) && i <= |idx|
    ensures NoRepeat(idx[..i], n)
  {
  }

  lemma ReceivedNext(idx: seq<Byte>, r: Byte, n: nat)
    ensures Received(idx + [r], n) == if r < n then Received(idx, n) + {r as nat} else Received(idx, n)
    ensures NoRepeat(idx + [r], n) && r < n ==> r as nat !in Received(idx, n)
  {
    if r as nat in Received(idx, n) {
      var j :| 0 <= j < |idx| && idx[j] == r;
      assert (idx + [r])[j] == r && (idx + [r])[|idx|] == r;
    }
  }

  /** As many originals are missing as recovery blocks were given. */
  lemma MissingAsRecovery(idx: seq<Byte>, n: nat)
    requires NoRepeat(idx, n) && |idx| == n
    ensures |Missing(n, Received(idx, n))| == |Pick(idx, idx, n, false)|
  {
    ReceivedCount(idx, n);
    PickLength(idx, idx, n, true);
    MissingCount(n, Received(idx, n));
    assert (set r | r in Received(idx, n) && r < n) == Received(idx, n);
  }

  ghost function Indices(blocks: seq<Block>): (idx: seq<Byte>)
    reads blocks
    ensures |idx| == |blocks| && forall i :: 0 <= i < |idx| ==> idx[i] == blocks[i].Index
  {
    seq(|blocks|, i requires 0 <= i < |blocks| reads blocks => blocks[i].Index)
  }

  // ---------------------------------------------------------------- the decoder

  class Decoder {
    const ctx: Gf256Ctx
    var params: Params
    var original: seq<Block>
    var recovery: seq<Block>
    const erasures: array<Byte>

    constructor (ctx: Gf256Ctx)
      ensures this.ctx == ctx && erasures.Length == 256 && fresh(erasures)
    {
      this.ctx := ctx;
      params := Params(0, 0, 0);
      original, recovery := [], [];
      erasures := new Byte[256];
    }

    /** The blocks so far are filed as originals and recovery blocks. */
    ghost predicate Filed(blocks: seq<Block>, idx: seq<Byte>, n: nat)
      requires |blocks| == |idx|
      reads this
    {
      original == Pick(blocks, idx, n, true) && recovery == Pick(blocks, idx, n, false)
    }

    /** One flag per original: was it received? */
    ghost predicate Flags(idx: seq<Byte>, n: nat)
      requires n <= erasures.Length
      reads erasures
    {
      forall r: nat :: r < n ==> (erasures[r] != 0 <==> r in idx)
    }

    ghost predicate ErasuresHold(ys: seq<nat>)
      reads erasures
    {
      |ys| <= erasures.Length && forall m :: 0 <= m < |ys| ==> erasures[m] == ys[m]
    }

    /**
     * CM256Decoder::Initialize. The erasure array first holds one flag per original; the indices of
     * the missing originals then overwrite it from the front, never ahead of the flag being read.
     */
    method Initialize(params: Params, blocks: seq<Block>) returns (ok: bool)
      requires 0 < params.OriginalCount == |blocks| <= 255 && erasures.Length == 256
      modifies this, erasures
      ensures this.params == params
      ensures ok <==> NoRepeat(Indices(blocks), params.OriginalCount)
      ensures ok ==> Filed(blocks, Indices(blocks), params.OriginalCount)
      ensures ok && recovery != [] ==> ErasuresHold(Missing(params.OriginalCount, Received(Indices(blocks), params.OriginalCount)))
    {
      hide Pick, NoRepeat, Received, Missing;
      this.params := params;
      var n := params.OriginalCount;
      ghost var idx := Indices(blocks);
      NothingFiled(blocks, idx, n);
      original, recovery := [], [];
      ClearFlags(n);
      assert idx[..0] == [];
      for i := 0 to n
        invariant this.params == params && idx == Indices(blocks)
        invariant Filed(blocks[..i], idx[..i], n) && NoRepeat(idx[..i], n) && Flags(idx[..i], n)
      {
        PickNext(blocks, idx, n, true, i);
        PickNext(blocks, idx, n, false, i);
        assert idx[..i + 1] == idx[..i] + [idx[i]];
        var isNew := FileBlock(blocks[i], n, idx[..i]);
        if !isNew {
          RepeatFound(idx, n, i);
          return false;
        }
      }
      assert blocks[..n] == blocks && idx[..n] == idx;
      MissingAsRecovery(idx, n);
      PickLength(blocks, idx, n, false);
      PickLength(idx, idx, n, false);
      CollectMissing(n, idx);
      return true;
    }

    /** The body of the first loop of Initialize. */
    method FileBlock(block: Block, n: nat, ghost idx: seq<Byte>) returns (isNew: bool)
      requires n <= erasures.Length == 256 && Flags(idx, n) && NoRepeat(idx, n)
      modifies this, erasures
      ensures params == old(params) && block.Index == old(block.Index)
      ensures isNew <==> block.Index >= n || block.Index !in idx
      ensures isNew ==> Flags(idx + [block.Index], n) && NoRepeat(idx + [block.Index], n)
      ensures original == old(original) + (if block.Index < n then [block] else [])
      ensures recovery == old(recovery) + (if block.Index < n then [] else [block])
    {
      var row := block.Index;
      if row < n {
        original := original + [block];
        if erasures[row] != 0 {
          return false;
        }
        erasures[row] := 1;
      } else {
        recovery := recovery + [block];
      }
      return true;
    }

    method ClearFlags(n: nat)
      requires n <= erasures.Length
      modifies erasures
      ensures Flags([], n)
    {
      for i := 0 to n
        invariant forall r: nat :: r < i ==> erasures[r] == 0
      {
        erasures[i] := 0;
      }
    }

    /** The second half of Initialize: an in-place compaction of the flags into missing indices. */
    method CollectMissing(n: nat, ghost idx: seq<Byte>)
      requires n <= erasures.Length == 256 && Flags(idx, n)
      requires |Missing(n, Received(idx, n))| == |recovery|
      modifies erasures
      ensures recovery != [] ==> ErasuresHold(Missing(n, Received(idx, n)))
    {
      hide Missing, Received, Compacted;
      ghost var received := Received(idx, n);
      FlagsCompact(erasures[..], idx, n);
      var index, i := 0, 0;
      while i < 256
        invariant index <= i <= 256
        invariant recovery != [] ==> Compacted(erasures[..], received, n, index, i) && index < |recovery|
      {
        if recovery != [] {
          StillMissing(erasures[..], received, n, index, i);
          CompactStep(erasures[..], received, n, index, i);
        }
        if erasures[i] == 0 {
          erasures[index] := i;
          index := index + 1;
          if index >= |recovery| {
            if recovery != [] {
              CompactDone(erasures[..], received, n, index, i + 1);
            }
            break;
          }
        }
        i := i + 1;
      }
      if recovery != [] && index < |recovery| {
        StillMissing(erasures[..], received, n, index, i);
      }
    }
  }

  /** The first i flags are compacted into index missing indices, the other flags are intact. */
  ghost predicate Compacted(e: seq<Byte>, received: set<nat>, n: nat, index: nat, i: nat)
  {
    && i <= n <= |e| && index == |Missing(i, received)|
    && (forall m :: 0 <= m < index ==> e[m] == Missing(i, received)[m])
    && (forall r: nat :: i <= r < n ==> (e[r] != 0 <==> r in received))
  }

  lemma FlagsCompact(e: seq<Byte>, idx: seq<Byte>, n: nat)
    requires n <= |e| && forall r: nat :: r < n ==> (e[r] != 0 <==> r in idx)
    ensures Compacted(e, Received(idx, n), n, 0, 0)
  {
  }

  lemma CompactStep(e: seq<Byte>, received: set<nat>, n: nat, index: nat, i: nat)
    requires Compacted(e, received, n, index, i) && i < n <= 256
    ensures index <= i
    ensures e[i] == 0 ==> Compacted(e[index := i], received, n, index + 1, i + 1)
    ensures e[i] != 0 ==> Compacted(e, received, n, index, i + 1)
  {
  }

  /** While some of the missing indices are still to be found, not all flags have been read. */
  lemma StillMissing(e: seq<Byte>, received: set<nat>, n: nat, index: nat, i: nat)
    requires Compacted(e, received, n, index, i) && index < |Missing(n, received)|
    ensures i < n
  {
    hide Missing;
  }

  lemma CompactDone(e: seq<Byte>, received: set<nat>, n: nat, index: nat, i: nat)
    requires Compacted(e, received, n, index, i) && index >= |Missing(n, received)|
    ensures |Missing(n, received)| <= |e| && forall m :: 0 <= m < |Missing(n, received)| ==> e[m] == Missing(n, received)[m]
  {
    hide Missing;
    MissingPrefix(i, n, received);
  }

  lemma NothingFiled(blocks: seq<Block>, idx: seq<Byte>, n: nat)
    requires |blocks| == |idx|
    ensures Pick(blocks[..0], idx[..0], n, true) == [] && Pick(blocks[..0], idx[..0], n, false) == []
    ensures NoRepeat(idx[..0], n)
  {
  }

  lemma RepeatFound(idx: seq<Byte>, n: nat, i: nat)
    requires i < |idx| && idx[i] < n && idx[i] in idx[..i]
    ensures !NoRepeat(idx, n)
  {
    var j :| 0 <= j < i && idx[j] == idx[i];
  }

  // ---------------------------------------------------------------- the elimination sweeps

  /** The rows of the recovery blocks are the given ones. */
  ghost predicate RowsAre(rec: seq<Block>, bytes: nat, rows: seq<seq<Byte>>)
    requires forall m :: 0 <= m < |rec| ==> bytes <= rec[m].Data.Length
    reads set b | b in rec :: b.Data
  {
    |rows| == |rec| && forall m :: 0 <= m < |rec| ==> rec[m].Data[..bytes] == rows[m]
  }

  ghost predicate Buffered(ctx: Gf256Ctx, rec: seq<Block>, bytes: nat)
  {
    && (forall i, j :: 0 <= i < j < |rec| ==> rec[i].Data != rec[j].Data)
    && (forall i :: 0 <= i < |rec| ==> rec[i].Data.Length >= bytes && rec[i].Data != ctx.invTable)
  }

  /** One row operation of a sweep: add c times a source buffer to recovery block i. */
  method RowOperation(ctx: Gf256Ctx, rec: seq<Block>, i: nat, c: Byte, src: array<Byte>, bytes: nat, ghost rows: seq<seq<Byte>>)
    requires ctx.Valid() && Buffered(ctx, rec, bytes) && i < |rec| && src != rec[i].Data && bytes <= src.Length
    requires RowsAre(rec, bytes, rows)
    modifies rec[i].Data
    ensures |rows[i]| == bytes && RowsAre(rec, bytes, rows[i := AddRow(rows[i], MulRow(src[..bytes], c))])
  {
    hide ctx.Valid, AddRow, MulRow;
    assert rows[i] == rec[i].Data[..bytes];
    AddScaled(ctx, rec[i].Data, c, src, bytes);
    forall m | 0 <= m < |rec|
      ensures rec[m].Data[..bytes] == rows[i := AddRow(rows[i], MulRow(src[..bytes], c))][m]
    {
      if m < i {
        assert rec[m].Data != rec[i].Data;
      } else if i < m {
        assert rec[i].Data != rec[m].Data;
      }
      assert m != i ==> rec[m].Data[..bytes] == old(rec[m].Data[..bytes]);
    }
  }

  /** Before row i of column j of the lower sweep: which Schur complement each row has reached. */
  ghost predicate LowerState(rows: seq<seq<Byte>>, xs: seq<Byte>, ys: seq<Byte>, x0: Byte, v: seq<seq<Byte>>, bytes: nat, j: nat, i: nat)
    requires |xs| == |ys| == |v| == |rows| && Rectangular(v, bytes) && j < |xs|
  {
    forall m: nat :: m < |rows| ==>
      rows[m] == ResidualRow(xs, ys, x0, v, bytes, if m <= j then m else if m < i then j + 1 else j, m)
  }

  ghost predicate UpperState(rows: seq<seq<Byte>>, xs: seq<Byte>, ys: seq<Byte>, x0: Byte, v: seq<seq<Byte>>, bytes: nat, j: nat, i: nat)
    requires |xs| == |ys| == |v| == |rows| && Rectangular(v, bytes) && j < |xs| && i <= j
  {
    forall m: nat :: m < |rows| ==>
      rows[m] == TriangleRow(xs, ys, x0, v, bytes, m, if m >= j then m + 1 else if m >= i then j else j + 1)
  }

  /** Everything the sweeps need about the system they solve. */
  ghost predicate System(ctx: Gf256Ctx, rec: seq<Block>, xs: seq<Byte>, ys: seq<Byte>, x0: Byte, v: seq<seq<Byte>>, bytes: nat, packed: array<Byte>)
  {
    && Buffered(ctx, rec, bytes) && Points(xs, ys, x0) && |rec| == |xs| == |ys| == |v| <= 256 && 0 < |xs|
    && Rectangular(v, bytes) && forall m :: 0 <= m < |rec| ==> rec[m].Data != packed
  }

  lemma LowerStateStep(rows: seq<seq<Byte>>, xs: seq<Byte>, ys: seq<Byte>, x0: Byte, v: seq<seq<Byte>>, bytes: nat, j: nat, i: nat)
    requires |xs| == |ys| == |v| == |rows| && Rectangular(v, bytes) && Points(xs, ys, x0) && j < i < |xs|
    requires LowerState(rows, xs, ys, x0, v, bytes, j, i)
    ensures |rows[i]| == |rows[j]|
    ensures LowerState(rows[i := AddRow(rows[i], MulRow(rows[j], L(xs, ys, x0, i, j)))], xs, ys, x0, v, bytes, j, i + 1)
  {
    hide AddRow, MulRow, ResidualRow, L;
    LowerRow(xs, ys, x0, v, bytes, j, i);
  }

  lemma LowerStateNext(rows: seq<seq<Byte>>, xs: seq<Byte>, ys: seq<Byte>, x0: Byte, v: seq<seq<Byte>>, bytes: nat, j: nat)
    requires |xs| == |ys| == |v| == |rows| && Rectangular(v, bytes) && j + 1 < |xs|
    requires LowerState(rows, xs, ys, x0, v, bytes, j, |xs|)
    ensures LowerState(rows, xs, ys, x0, v, bytes, j + 1, j + 2)
  {
    hide ResidualRow;
  }

  /** One column of the loop that eliminates the lower left triangle. */
  method LowerColumn(ctx: Gf256Ctx, rec: seq<Block>, lower: array<Byte>, lp: nat, j: nat, bytes: nat,
    ghost rows0: seq<seq<Byte>>, ghost xs: seq<Byte>, ghost ys: seq<Byte>, ghost x0: Byte, ghost v: seq<seq<Byte>>)
    returns (lp': nat, ghost rows: seq<seq<Byte>>)
    requires ctx.Valid() && System(ctx, rec, xs, ys, x0, v, bytes, lower) && RowsAre(rec, bytes, rows0)
    requires lower.Length == Packed(|xs|) && LowerHolds(lower[..], xs, ys, x0, |xs| - 1)
    requires j + 1 < |xs| && lp == ColumnStart(|xs|, j) && LowerState(rows0, xs, ys, x0, v, bytes, j, j + 1)
    modifies set b | b in rec :: b.Data
    ensures RowsAre(rec, bytes, rows) && LowerState(rows, xs, ys, x0, v, bytes, j, |xs|)
    ensures lp' == lp + (|xs| - 1 - j)
  {
    hide ctx.Valid, AddRow, MulRow, LowerHolds, L, Packed, LowerState, Points;
    rows, lp' := rows0, lp;
    ghost var packed := lower[..];
    for i := j + 1 to |rec|
      invariant lp' == lp + (i - j - 1) && lower[..] == packed
      invariant RowsAre(rec, bytes, rows) && LowerState(rows, xs, ys, x0, v, bytes, j, i)
    {
      LowerEntry(packed, xs, ys, x0, j, i);
      LowerStateStep(rows, xs, ys, x0, v, bytes, j, i);
      var c := lower[lp'];
      assert rec[j].Data != rec[i].Data && rows[j] == rec[j].Data[..bytes];
      RowOperation(ctx, rec, i, c, rec[j].Data, bytes, rows);
      rows := rows[i := AddRow(rows[i], MulRow(rows[j], c))];
      lp' := lp' + 1;
    }
  }

  /** The loop that eliminates the lower left triangle. */
  method LowerSweep(ctx: Gf256Ctx, rec: seq<Block>, lower: array<Byte>, bytes: nat,
    ghost rows0: seq<seq<Byte>>, ghost xs: seq<Byte>, ghost ys: seq<Byte>, ghost x0: Byte, ghost v: seq<seq<Byte>>)
    returns (ghost rows: seq<seq<Byte>>)
    requires ctx.Valid() && System(ctx, rec, xs, ys, x0, v, bytes, lower) && RowsAre(rec, bytes, rows0)
    requires lower.Length == Packed(|xs|) && LowerHolds(lower[..], xs, ys, x0, |xs| - 1)
    requires LowerState(rows0, xs, ys, x0, v, bytes, 0, 1)
    modifies set b | b in rec :: b.Data
    ensures RowsAre(rec, bytes, rows) && LowerState(rows, xs, ys, x0, v, bytes, |xs| - 1, |xs|)
  {
    hide ctx.Valid, LowerHolds, Packed, LowerState, Points;
    rows := rows0;
    var lp := 0;
    ghost var packed := lower[..];
    for j := 0 to |rec| - 1
      invariant lp == ColumnStart(|xs|, j) && lower[..] == packed
      invariant RowsAre(rec, bytes, rows) && LowerState(rows, xs, ys, x0, v, bytes, j, j + 1)
    {
      lp, rows := LowerColumn(ctx, rec, lower, lp, j, bytes, rows, xs, ys, x0, v);
      LowerStateNext(rows, xs, ys, x0, v, bytes, j);
    }
  }

  /** The loop that divides by the diagonal and names the originals the blocks now stand for. */
  method DiagonalSweep(ctx: Gf256Ctx, rec: seq<Block>, diag: array<Byte>, erasures: array<Byte>, bytes: nat,
    ghost rows0: seq<seq<Byte>>, ghost xs: seq<Byte>, ghost ys: seq<Byte>, ghost x0: Byte, ghost v: seq<seq<Byte>>)
    returns (ghost rows: seq<seq<Byte>>)
    requires ctx.Valid() && System(ctx, rec, xs, ys, x0, v, bytes, diag) && RowsAre(rec, bytes, rows0)
    requires diag.Length == |xs| && DiagonalHolds(diag[..], xs, ys, x0, |xs|)
    requires |xs| <= erasures.Length && (forall m :: 0 <= m < |xs| ==> erasures[m] == ys[m])
    requires forall m :: 0 <= m < |rec| ==> rec[m].Data != erasures
    requires forall i, j :: 0 <= i < j < |rec| ==> rec[i] != rec[j]
    requires LowerState(rows0, xs, ys, x0, v, bytes, |xs| - 1, |xs|)
    modifies rec, set b | b in rec :: b.Data
    ensures RowsAre(rec, bytes, rows) && UpperState(rows, xs, ys, x0, v, bytes, |xs| - 1, |xs| - 1)
    ensures forall m :: 0 <= m < |rec| ==> rec[m].Index == ys[m]
  {
    hide ctx.Valid, Points, MulRow, TriangleRow, ResidualRow, D, Inv;
    rows := rows0;
    var n := |rec|;
    ghost var d := diag[..];
    for i := 0 to n
      invariant diag[..] == d && RowsAre(rec, bytes, rows)
      invariant forall m :: 0 <= m < n ==> erasures[m] == ys[m]
      invariant forall m :: 0 <= m < i ==> rec[m].Index == ys[m]
      invariant forall m: nat :: m < n ==>
        rows[m] == if m < i then TriangleRow(xs, ys, x0, v, bytes, m, n) else ResidualRow(xs, ys, x0, v, bytes, m, m)
    {
      rec[i].Index := erasures[i];
      DiagonalRow(xs, ys, x0, v, bytes, i);
      DivideRow(ctx, rec, i, diag[i], bytes, rows);
      rows := rows[i := MulRow(rows[i], Inv(d[i]))];
    }
  }

  method DivideRow(ctx: Gf256Ctx, rec: seq<Block>, i: nat, c: Byte, bytes: nat, ghost rows: seq<seq<Byte>>)
    requires ctx.Valid() && Buffered(ctx, rec, bytes) && i < |rec| && RowsAre(rec, bytes, rows)
    modifies rec[i].Data
    ensures RowsAre(rec, bytes, rows[i := MulRow(rows[i], Inv(c))])
  {
    hide ctx.Valid, MulRow, Inv;
    var data := rec[i].Data;
    assert data[0..bytes] == data[..bytes] == rows[i];
    DivMem(ctx, data, 0, c, bytes);
    assert data[..bytes] == data[..][..bytes];
    forall m | 0 <= m < |rec|
      ensures rec[m].Data[..bytes] == rows[i := MulRow(rows[i], Inv(c))][m]
    {
      if m < i {
        assert rec[m].Data != rec[i].Data;
      } else if i < m {
        assert rec[i].Data != rec[m].Data;
      }
      assert m != i ==> rec[m].Data[..bytes] == old(rec[m].Data[..bytes]);
    }
  }

  lemma LowerEntry(packed: seq<Byte>, xs: seq<Byte>, ys: seq<Byte>, x0: Byte, k: nat, i: nat)
    requires |xs| == |ys| && k < i < |xs| && |packed| == Packed(|xs|) && LowerHolds(packed, xs, ys, x0, |xs| - 1)
    ensures var p := ColumnStart(|xs|, k) + (i - k - 1); p < |packed| && packed[p] == L(xs, ys, x0, i, k)
  {
    hide Packed, L;
    assert LowerAt(|xs|, k, i) < |packed|;
  }

  lemma UpperStateStep(rows: seq<seq<Byte>>, xs: seq<Byte>, ys: seq<Byte>, x0: Byte, v: seq<seq<Byte>>, bytes: nat, j: nat, i: nat)
    requires |xs| == |ys| == |v| == |rows| && Rectangular(v, bytes) && Points(xs, ys, x0) && i < j < |xs|
    requires UpperState(rows, xs, ys, x0, v, bytes, j, i + 1)
    ensures |rows[i]| == |rows[j]|
    ensures UpperState(rows[i := AddRow(rows[i], MulRow(rows[j], U(xs, ys, x0, i, j)))], xs, ys, x0, v, bytes, j, i)
  {
    hide AddRow, MulRow, TriangleRow, U;
    UpperRow(xs, ys, x0, v, bytes, i, j);
    SolvedRow(xs, ys, x0, v, bytes, j);
  }

  lemma UpperStateNext(rows: seq<seq<Byte>>, xs: seq<Byte>, ys: seq<Byte>, x0: Byte, v: seq<seq<Byte>>, bytes: nat, j: nat)
    requires |xs| == |ys| == |v| == |rows| && Rectangular(v, bytes) && 0 < j < |xs|
    requires UpperState(rows, xs, ys, x0, v, bytes, j, 0)
    ensures UpperState(rows, xs, ys, x0, v, bytes, j - 1, j - 1)
  {
    hide TriangleRow;
  }

  lemma UpperStateDone(rows: seq<seq<Byte>>, xs: seq<Byte>, ys: seq<Byte>, x0: Byte, v: seq<seq<Byte>>, bytes: nat)
    requires |xs| == |ys| == |v| == |rows| && Rectangular(v, bytes) && Points(xs, ys, x0) && 0 < |xs|
    requires UpperState(rows, xs, ys, x0, v, bytes, 0, 0)
    ensures rows == v
  {
    hide TriangleRow;
    forall m: nat | m < |rows|
      ensures rows[m] == v[m]
    {
      SolvedRow(xs, ys, x0, v, bytes, m);
    }
  }

  lemma UpperEntry(packed: seq<Byte>, xs: seq<Byte>, ys: seq<Byte>, x0: Byte, k: nat, j: nat)
    requires |xs| == |ys| && k < j < |xs| && |packed| == Packed(|xs|) && UpperHolds(packed, xs, ys, x0)
    ensures var p := SegmentStart(|xs|, j) + (j - 1 - k); p < |packed| && packed[p] == U(xs, ys, x0, k, j)
  {
    hide Packed, U;
    assert UpperAt(|xs|, k, j) < |packed|;
  }

  /** One column of the loop that eliminates the upper right triangle. */
  method UpperColumn(ctx: Gf256Ctx, rec: seq<Block>, upper: array<Byte>, up: nat, j: nat, bytes: nat,
    ghost rows0: seq<seq<Byte>>, ghost xs: seq<Byte>, ghost ys: seq<Byte>, ghost x0: Byte, ghost v: seq<seq<Byte>>)
    returns (up': nat, ghost rows: seq<seq<Byte>>)
    requires ctx.Valid() && System(ctx, rec, xs, ys, x0, v, bytes, upper) && RowsAre(rec, bytes, rows0)
    requires upper.Length == Packed(|xs|) && UpperHolds(upper[..], xs, ys, x0)
    requires 0 < j < |xs| && up == SegmentStart(|xs|, j) && UpperState(rows0, xs, ys, x0, v, bytes, j, j)
    modifies set b | b in rec :: b.Data
    ensures RowsAre(rec, bytes, rows) && UpperState(rows, xs, ys, x0, v, bytes, j, 0)
    ensures up' == up + j
  {
    hide ctx.Valid, AddRow, MulRow, UpperHolds, U, Packed, UpperState, Points, SegmentStart;
    rows, up' := rows0, up;
    ghost var packed := upper[..];
    var i := j;
    while i > 0
      invariant 0 <= i <= j && up' == up + (j - i) && upper[..] == packed
      invariant RowsAre(rec, bytes, rows) && UpperState(rows, xs, ys, x0, v, bytes, j, i)
    {
      i := i - 1;
      UpperEntry(packed, xs, ys, x0, i, j);
      UpperStateStep(rows, xs, ys, x0, v, bytes, j, i);
      var c := upper[up'];
      assert rec[i].Data != rec[j].Data && rows[j] == rec[j].Data[..bytes];
      RowOperation(ctx, rec, i, c, rec[j].Data, bytes, rows);
      rows := rows[i := AddRow(rows[i], MulRow(rows[j], c))];
      up' := up' + 1;
    }
  }

  /** The loop that eliminates the upper right triangle. */
  method UpperSweep(ctx: Gf256Ctx, rec: seq<Block>, upper: array<Byte>, bytes: nat,
    ghost rows0: seq<seq<Byte>>, ghost xs: seq<Byte>, ghost ys: seq<Byte>, ghost x0: Byte, ghost v: seq<seq<Byte>>)
    requires ctx.Valid() && System(ctx, rec, xs, ys, x0, v, bytes, upper) && RowsAre(rec, bytes, rows0)
    requires upper.Length == Packed(|xs|) && UpperHolds(upper[..], xs, ys, x0)
    requires UpperState(rows0, xs, ys, x0, v, bytes, |xs| - 1, |xs| - 1)
    modifies set b | b in rec :: b.Data
    ensures RowsAre(rec, bytes, v)
  {
    hide ctx.Valid, UpperHolds, Packed, UpperState, Points, SegmentStart;
    ghost var rows := rows0;
    var n := |rec|;
    var up, j := 0, n - 1;
    ghost var packed := upper[..];
    LastSegment(n);
    while j >= 1
      invariant 0 <= j < n && up == SegmentStart(n, j) && upper[..] == packed
      invariant RowsAre(rec, bytes, rows) && UpperState(rows, xs, ys, x0, v, bytes, j, j)
    {
      up, rows := UpperColumn(ctx, rec, upper, up, j, bytes, rows, xs, ys, x0, v);
      UpperStateNext(rows, xs, ys, x0, v, bytes, j);
      SegmentStep(n, j);
      j := j - 1;
    }
    UpperStateDone(rows, xs, ys, x0, v, bytes);
  }

  // ---------------------------------------------------------------- removing the received originals

  ghost function IndexSet(os: seq<Byte>, n: nat): set<nat>
  {
    set r: nat | r < n && r in os
  }

  lemma IndexSetNext(os: seq<Byte>, n: nat, k: nat)
    requires k < |os| && os[k] < n
    ensures IndexSet(os[..k + 1], n) == IndexSet(os[..k], n) + {os[k] as nat}
    ensures (forall i, j :: 0 <= i < j < |os| ==> os[i] != os[j]) ==> os[k] as nat !in IndexSet(os[..k], n)
  {
    assert os[..k + 1] == os[..k] + [os[k]];
  }

  /** Recovery rows before original number o has reached row m. */
  ghost predicate SumState(rows: seq<seq<Byte>>, xs: seq<Byte>, data: seq<seq<Byte>>, bytes: nat, skip: set<nat>, r: nat, m: nat)
    requires |rows| == |xs| && Rectangular(data, bytes) && |data| < 256
  {
    forall i: nat :: i < |rows| ==>
      rows[i] == SumRow(xs[i], |data|, data, bytes, |data|, if i < m then skip + {r} else skip)
  }

  lemma SumStateStep(rows: seq<seq<Byte>>, xs: seq<Byte>, data: seq<seq<Byte>>, bytes: nat, skip: set<nat>, r: nat, m: nat)
    requires |rows| == |xs| && Rectangular(data, bytes) && |data| < 256 && m < |xs| && r < |data| && r !in skip
    requires SumState(rows, xs, data, bytes, skip, r, m)
    ensures |rows[m]| == bytes
    ensures SumState(rows[m := AddRow(rows[m], MulRow(data[r], Element(xs[m], |data|, r)))], xs, data, bytes, skip, r, m + 1)
  {
    hide AddRow, MulRow, SumRow, Element;
    SkipRow(xs[m], |data|, data, bytes, skip, r);
  }

  /** The received originals: where they are and what they hold. */
  ghost predicate Originals(orig: seq<Block>, os: seq<Byte>, rec: seq<Block>, data: seq<seq<Byte>>, bytes: nat)
    reads orig, set b | b in orig :: b.Data
  {
    && |orig| == |os| && (forall i, j :: 0 <= i < j < |os| ==> os[i] != os[j])
    && forall o :: 0 <= o < |orig| ==>
         && orig[o].Index == os[o] < |data|
         && bytes <= orig[o].Data.Length && orig[o].Data[..bytes] == data[os[o]]
         && forall m :: 0 <= m < |rec| ==> orig[o].Data != rec[m].Data
  }

  /** The inner loop that takes one received original out of every recovery row. */
  method EliminateOne(ctx: Gf256Ctx, rec: seq<Block>, src: array<Byte>, row: Byte, n: nat, bytes: nat,
    ghost rows0: seq<seq<Byte>>, ghost xs: seq<Byte>, ghost data: seq<seq<Byte>>, ghost skip: set<nat>)
    returns (ghost rows: seq<seq<Byte>>)
    requires ctx.Valid() && Buffered(ctx, rec, bytes) && RowsAre(rec, bytes, rows0) && |xs| == |rec|
    requires Rectangular(data, bytes) && n == |data| < 256 && row < n && row as nat !in skip
    requires forall m :: 0 <= m < |rec| ==> rec[m].Index == xs[m] && src != rec[m].Data
    requires bytes <= src.Length && src[..bytes] == data[row]
    requires SumState(rows0, xs, data, bytes, skip, row, 0)
    modifies set b | b in rec :: b.Data
    ensures RowsAre(rec, bytes, rows) && SumState(rows, xs, data, bytes, skip, row, |xs|)
  {
    hide ctx.Valid, AddRow, MulRow, Element, SumState;
    rows := rows0;
    for m := 0 to |rec|
      invariant src[..bytes] == data[row]
      invariant RowsAre(rec, bytes, rows) && SumState(rows, xs, data, bytes, skip, row, m)
    {
      var element := GetMatrixElement(ctx, rec[m].Index, n, row);
      SumStateStep(rows, xs, data, bytes, skip, row, m);
      RowOperation(ctx, rec, m, element, src, bytes, rows);
      rows := rows[m := AddRow(rows[m], MulRow(data[row], element))];
    }
  }

  lemma SumStateNext(rows: seq<seq<Byte>>, xs: seq<Byte>, data: seq<seq<Byte>>, bytes: nat, skip: set<nat>, r: nat, r': nat)
    requires |rows| == |xs| && Rectangular(data, bytes) && |data| < 256
    requires SumState(rows, xs, data, bytes, skip, r, |xs|)
    ensures SumState(rows, xs, data, bytes, skip + {r}, r', 0)
  {
  }

  /** The loop that eliminates the received originals from the recovery rows. */
  method EliminateOriginals(ctx: Gf256Ctx, rec: seq<Block>, orig: seq<Block>, n: nat, bytes: nat,
    ghost rows0: seq<seq<Byte>>, ghost xs: seq<Byte>, ghost os: seq<Byte>, ghost data: seq<seq<Byte>>)
    returns (ghost rows: seq<seq<Byte>>)
    requires ctx.Valid() && Buffered(ctx, rec, bytes) && RowsAre(rec, bytes, rows0) && |xs| == |rec|
    requires Rectangular(data, bytes) && n == |data| < 256
    requires forall m :: 0 <= m < |rec| ==> rec[m].Index == xs[m]
    requires Originals(orig, os, rec, data, bytes)
    requires SumState(rows0, xs, data, bytes, {}, 0, 0)
    modifies set b | b in rec :: b.Data
    ensures RowsAre(rec, bytes, rows) && SumState(rows, xs, data, bytes, IndexSet(os, n), 0, 0)
  {
    hide ctx.Valid, SumState, IndexSet;
    rows := rows0;
    NoneSkipped(os, n);
    ghost var r := 0;
    for o := 0 to |orig|
      invariant Originals(orig, os, rec, data, bytes)
      invariant RowsAre(rec, bytes, rows) && SumState(rows, xs, data, bytes, IndexSet(os[..o], n), r, 0)
    {
      IndexSetNext(os, n, o);
      ghost var skip, row := IndexSet(os[..o], n), os[o] as nat;
      AnyPending(rows, xs, data, bytes, skip, r, row);
      rows := EliminateOne(ctx, rec, orig[o].Data, orig[o].Index, n, bytes, rows, xs, data, skip);
      SumStateNext(rows, xs, data, bytes, skip, row, row);
      r := row;
    }
    assert os[..|os|] == os;
    AnyPending(rows, xs, data, bytes, IndexSet(os, n), r, 0);
  }

  lemma NoneSkipped(os: seq<Byte>, n: nat)
    ensures IndexSet(os[..0], n) == {}
  {
  }

  /** With no row reached yet, the original in hand does not matter. */
  lemma AnyPending(rows: seq<seq<Byte>>, xs: seq<Byte>, data: seq<seq<Byte>>, bytes: nat, skip: set<nat>, r: nat, r': nat)
    requires |rows| == |xs| && Rectangular(data, bytes) && |data| < 256 && SumState(rows, xs, data, bytes, skip, r, 0)
    ensures SumState(rows, xs, data, bytes, skip, r', 0)
  {
  }

  // ---------------------------------------------------------------- solving for the missing originals

  /** A recovery problem: rows xs of the matrix were received, originals os too, originals ys are missing. */
  ghost predicate Problem(xs: seq<Byte>, os: seq<Byte>, ys: seq<Byte>, n: nat)
  {
    && 0 < |xs| == |ys| && n < 256 && Points(xs, ys, n)
    && ys == Missing(n, IndexSet(os, n))
    && forall m :: 0 <= m < |xs| ==> n <= xs[m]
  }

  lemma SystemState(rows: seq<seq<Byte>>, xs: seq<Byte>, os: seq<Byte>, ys: seq<Byte>, data: seq<seq<Byte>>, bytes: nat)
    requires |rows| == |xs| && Rectangular(data, bytes) && |data| < 256 && Problem(xs, os, ys, |data|)
    requires SumState(rows, xs, data, bytes, IndexSet(os, |data|), 0, 0)
    ensures var v := MissingRows(data, bytes, ys);
      Rectangular(v, bytes) && LowerState(rows, xs, ys, |data|, v, bytes, 0, 1)
  {
    hide SumRow, ResidualRow, Points;
    forall m: nat | m < |xs|
      ensures rows[m] == ResidualRow(xs, ys, |data|, MissingRows(data, bytes, ys), bytes, 0, m)
    {
      SystemRow(xs, ys, |data|, data, bytes, IndexSet(os, |data|), m);
    }
  }

  /** CM256Decoder::Decode: the general case. */
  method Solve(ctx: Gf256Ctx, rec: seq<Block>, orig: seq<Block>, erasures: array<Byte>, n: nat, bytes: nat,
    ghost rows0: seq<seq<Byte>>, ghost xs: seq<Byte>, ghost os: seq<Byte>, ghost ys: seq<Byte>, ghost data: seq<seq<Byte>>)
    requires ctx.Valid() && Buffered(ctx, rec, bytes) && RowsAre(rec, bytes, rows0) && |xs| == |rec|
    requires Rectangular(data, bytes) && n == |data| < 256 && Problem(xs, os, ys, n)
    requires forall m :: 0 <= m < |rec| ==> rec[m].Index == xs[m] && rec[m].Data != erasures
    requires forall i, j :: 0 <= i < j < |rec| ==> rec[i] != rec[j]
    requires |xs| <= erasures.Length && forall m :: 0 <= m < |xs| ==> erasures[m] == ys[m]
    requires Originals(orig, os, rec, data, bytes)
    requires SumState(rows0, xs, data, bytes, {}, 0, 0)
    modifies rec, set b | b in rec :: b.Data
    ensures RowsAre(rec, bytes, MissingRows(data, bytes, ys))
    ensures forall m :: 0 <= m < |rec| ==> rec[m].Index == ys[m]
  {
    hide ctx.Valid, SumState, LowerState, UpperState, Points, Packed, LowerHolds, UpperHolds, DiagonalHolds, RowsAre, IndexSet, Missing;
    ghost var v := MissingRows(data, bytes, ys);
    ghost var rows := EliminateOriginals(ctx, rec, orig, n, bytes, rows0, xs, os, data);
    SameLength(rec, bytes, rows);
    SystemState(rows, xs, os, ys, data, bytes);
    FactorAndSweep(ctx, rec, erasures, n, bytes, rows, xs, ys, v);
  }

  /** The factorisation, into buffers of its own. */
  method FactorReceived(ctx: Gf256Ctx, rec: seq<Block>, erasures: array<Byte>, n: Byte, ghost xs: seq<Byte>, ghost ys: seq<Byte>)
    returns (lower: array<Byte>, diag: array<Byte>, upper: array<Byte>)
    requires ctx.Valid() && 0 < |xs| == |ys| == |rec| <= 256 && Points(xs, ys, n)
    requires forall m :: 0 <= m < |rec| ==> rec[m].Index == xs[m]
    requires |xs| <= erasures.Length && forall m :: 0 <= m < |xs| ==> erasures[m] == ys[m]
    ensures fresh(lower) && fresh(diag) && fresh(upper)
    ensures lower.Length == Packed(|xs|) && upper.Length == Packed(|xs|) && diag.Length == |xs|
    ensures LowerHolds(lower[..], xs, ys, n, |xs| - 1)
    ensures DiagonalHolds(diag[..], xs, ys, n, |xs|)
    ensures UpperHolds(upper[..], xs, ys, n)
  {
    hide ctx.Valid, Points, Packed, LowerHolds, UpperHolds, DiagonalHolds;
    var size := |rec|;
    lower, diag, upper := new Byte[Packed(size)], new Byte[size], new Byte[Packed(size)];
    var x := ReadIndices(rec, xs);
    var y := ReadErasures(erasures, size, ys);
    GenerateLDUDecomposition(ctx, x, y, n, lower, diag, upper);
  }

  /** The factorisation and the three sweeps that undo it. */
  method FactorAndSweep(ctx: Gf256Ctx, rec: seq<Block>, erasures: array<Byte>, n: Byte, bytes: nat,
    ghost rows0: seq<seq<Byte>>, ghost xs: seq<Byte>, ghost ys: seq<Byte>, ghost v: seq<seq<Byte>>)
    requires ctx.Valid() && Buffered(ctx, rec, bytes) && RowsAre(rec, bytes, rows0)
    requires 0 < |xs| == |ys| == |rec| == |v| <= 256 && Points(xs, ys, n) && Rectangular(v, bytes)
    requires forall m :: 0 <= m < |rec| ==> rec[m].Index == xs[m] && rec[m].Data != erasures
    requires forall i, j :: 0 <= i < j < |rec| ==> rec[i] != rec[j]
    requires |xs| <= erasures.Length && forall m :: 0 <= m < |xs| ==> erasures[m] == ys[m]
    requires LowerState(rows0, xs, ys, n, v, bytes, 0, 1)
    modifies rec, set b | b in rec :: b.Data
    ensures RowsAre(rec, bytes, v) && forall m :: 0 <= m < |rec| ==> rec[m].Index == ys[m]
  {
    hide ctx.Valid, LowerState, UpperState, Points, Packed, LowerHolds, UpperHolds, DiagonalHolds, RowsAre;
    var lower, diag, upper := FactorReceived(ctx, rec, erasures, n, xs, ys);
    ghost var rows := LowerSweep(ctx, rec, lower, bytes, rows0, xs, ys, n, v);
    rows := DiagonalSweep(ctx, rec, diag, erasures, bytes, rows, xs, ys, n, v);
    UpperSweep(ctx, rec, upper, bytes, rows, xs, ys, n, v);
  }

  lemma SameLength(rec: seq<Block>, bytes: nat, rows: seq<seq<Byte>>)
    requires forall m :: 0 <= m < |rec| ==> bytes <= rec[m].Data.Length
    requires RowsAre(rec, bytes, rows)
    ensures |rows| == |rec|
  {
  }

  method ReadIndices(rec: seq<Block>, ghost xs: seq<Byte>) returns (x: seq<Byte>)
    requires |xs| == |rec| && forall m :: 0 <= m < |rec| ==> rec[m].Index == xs[m]
    ensures x == xs
  {
    x := [];
    for m := 0 to |rec|
      invariant x == xs[..m]
    {
      x := x + [rec[m].Index];
    }
  }

  method ReadErasures(erasures: array<Byte>, size: nat, ghost ys: seq<Byte>) returns (y: seq<Byte>)
    requires size == |ys| <= erasures.Length && forall m :: 0 <= m < |ys| ==> erasures[m] == ys[m]
    ensures y == ys
  {
    y := erasures[..size];
  }

  // ---------------------------------------------------------------- one recovery block

  /** Adding originals to the row of ones. */
  lemma OnesSkip(data: seq<seq<Byte>>, bytes: nat, skip: set<nat>, r: nat)
    requires Rectangular(data, bytes) && |data| < 256 && r < |data| && r !in skip
    ensures AddRow(SumRow(|data|, |data|, data, bytes, |data|, skip), data[r])
         == SumRow(|data|, |data|, data, bytes, |data|, skip + {r})
  {
    hide AddRow, MulRow, SumRow, Element;
    FirstRowIsOnes(|data|, r);
    UnitRow(data[r]);
    SkipRow(|data|, |data|, data, bytes, skip, r);
  }

  lemma AddRowAssoc(z: seq<Byte>, x: seq<Byte>, y: seq<Byte>)
    requires |z| == |x| == |y|
    ensures AddRow(z, AddRow(x, y)) == AddRow(AddRow(z, x), y)
  {
    hide Add;
    forall i | 0 <= i < |z|
      ensures Add(z[i], Add(x[i], y[i])) == Add(Add(z[i], x[i]), y[i])
    {
      AddAssoc(z[i], x[i], y[i]);
    }
  }

  /** Once all other originals are added, the row of ones is the missing original. */
  lemma OnesSolved(os: seq<Byte>, ys: seq<Byte>, data: seq<seq<Byte>>, bytes: nat)
    requires Rectangular(data, bytes) && |data| < 256 && Problem([|data|], os, ys, |data|)
    ensures SumRow(|data|, |data|, data, bytes, |data|, IndexSet(os, |data|)) == data[ys[0]]
  {
    hide SumRow, ResidualRow, Points;
    var n: Byte, xs := |data|, [|data|];
    var v := MissingRows(data, bytes, ys);
    SystemRow(xs, ys, n, data, bytes, IndexSet(os, |data|), 0);
    OnesRow(xs, ys, v, bytes);
  }

  lemma OnesRow(xs: seq<Byte>, ys: seq<Byte>, v: seq<seq<Byte>>, bytes: nat)
    requires |xs| == |ys| == |v| == 1 && Rectangular(v, bytes) && Points(xs, ys, xs[0])
    ensures ResidualRow(xs, ys, xs[0], v, bytes, 0, 0) == v[0]
  {
    hide Add, Mul, Element;
    FirstRowIsOnes(xs[0], ys[0]);
    MulOne(1);
    forall t | 0 <= t < bytes
      ensures Residual(xs, ys, xs[0], Column(v, bytes, t), 0, 0, 1) == v[0][t]
    {
      MulOne(v[0][t]);
      AddZero(v[0][t]);
      assert Residual(xs, ys, xs[0], Column(v, bytes, t), 0, 0, 0) == 0;
    }
  }

  /** CM256Decoder::DecodeM1: add all originals, two at a time, to the one recovery block. */
  method DecodeM1(ctx: Gf256Ctx, rec: seq<Block>, orig: seq<Block>, erasures: array<Byte>, bytes: nat,
    ghost os: seq<Byte>, ghost ys: seq<Byte>, ghost data: seq<seq<Byte>>)
    requires ctx.Valid() && Buffered(ctx, rec, bytes) && |rec| == 1
    requires Rectangular(data, bytes) && |data| < 256 && Problem([|data|], os, ys, |data|)
    requires rec[0].Data != erasures && 0 < erasures.Length && |ys| == 1 && erasures[0] == ys[0] < |data|
    requires Originals(orig, os, rec, data, bytes)
    requires rec[0].Data[..bytes] == SumRow(|data|, |data|, data, bytes, |data|, {})
    modifies rec, rec[0].Data
    ensures rec[0].Data[..bytes] == data[ys[0]] && rec[0].Index == ys[0]
  {
    hide ctx.Valid, AddRow, SumRow, IndexSet, Problem;
    var out := rec[0].Data;
    ghost var n := |data|;
    var pending: nat := 0;
    NoneSkipped(os, n);
    for i := 0 to |orig|
      invariant Originals(orig, os, rec, data, bytes) && erasures[0] == ys[0]
      invariant pending <= 1 && pending <= i
      invariant out[..bytes] == SumRow(n, n, data, bytes, n, IndexSet(os[..i - pending], n))
    {
      IndexSetNext(os, n, i);
      if pending == 0 {
        pending := 1;
      } else {
        IndexSetNext(os, n, i - 1);
        ghost var skip := IndexSet(os[..i - 1], n);
        OnesSkip(data, bytes, skip, os[i - 1]);
        OnesSkip(data, bytes, skip + {os[i - 1] as nat}, os[i]);
        AddPair(out, orig[i - 1].Data, orig[i].Data, bytes);
        AddRowAssoc(SumRow(n, n, data, bytes, n, skip), data[os[i - 1]], data[os[i]]);
        pending := 0;
      }
    }
    assert os[..|os|] == os;
    if pending == 1 {
      var last := |orig| - 1;
      IndexSetNext(os, n, last);
      OnesSkip(data, bytes, IndexSet(os[..last], n), os[last]);
      AddOne(out, orig[last].Data, bytes);
    }
    OnesSolved(os, ys, data, bytes);
    rec[0].Index := erasures[0];
  }

  method AddPair(z: array<Byte>, x: array<Byte>, y: array<Byte>, bytes: nat)
    requires z != x && z != y && bytes <= z.Length && bytes <= x.Length && bytes <= y.Length
    modifies z
    ensures z[..bytes] == AddRow(old(z[..bytes]), AddRow(x[..bytes], y[..bytes]))
  {
    hide AddRow;
    assert z[0..bytes] == z[..bytes] && x[0..bytes] == x[..bytes] && y[0..bytes] == y[..bytes];
    Add2Mem(z, 0, x, 0, y, 0, bytes);
    assert z[..bytes] == z[..][..bytes];
  }

  method AddOne(z: array<Byte>, x: array<Byte>, bytes: nat)
    requires z != x && bytes <= z.Length && bytes <= x.Length
    modifies z
    ensures z[..bytes] == AddRow(old(z[..bytes]), x[..bytes])
  {
    hide AddRow;
    assert z[0..bytes] == z[..bytes] && x[0..bytes] == x[..bytes];
    AddMem(z, 0, x, 0, bytes);
    assert z[..bytes] == z[..][..bytes];
  }

  // ---------------------------------------------------------------- cm256_decode

  /**
   * What the header of the library asks of a caller: N blocks made by one encoder, in separate
   * buffers, and no recovery block given twice. Repeated originals are detected by the code.
   */
  ghost predicate Given(ctx: Gf256Ctx, params: Params, blocks: seq<Block>, data: seq<seq<Byte>>)
    requires ValidParams(params)
    reads blocks, set b | b in blocks :: b.Data
  {
    var n, bytes := params.OriginalCount, params.BlockBytes;
    && |blocks| == |data| == n && Rectangular(data, bytes) && Separate(ctx, blocks, bytes)
    && (forall i :: 0 <= i < n ==>
          blocks[i].Index < n + params.RecoveryCount && blocks[i].Data[..bytes] == Encoded(data, bytes, blocks[i].Index))
    && (forall i, j :: 0 <= i < j < n && blocks[i].Index >= n ==> blocks[i].Index != blocks[j].Index)
  }

  /** One block per original, each holding that original's bytes. */
  ghost predicate Decoded(blocks: seq<Block>, data: seq<seq<Byte>>, bytes: nat)
    reads blocks, set b | b in blocks :: b.Data
  {
    && |blocks| == |data|
    && (forall i :: 0 <= i < |blocks| ==>
          blocks[i].Index < |data| && bytes <= blocks[i].Data.Length && blocks[i].Data[..bytes] == data[blocks[i].Index])
    && (forall i, j :: 0 <= i < j < |blocks| ==> blocks[i].Index != blocks[j].Index)
  }

  ghost predicate IsFiled(b: Block, r: Byte, blocks: seq<Block>, n: nat, low: bool)
    reads blocks
  {
    b in blocks && b.Index == r && (r < n) == low
  }

  /** What Initialize files, in terms of indices. */
  lemma FiledIndices(blocks: seq<Block>, idx: seq<Byte>, n: nat, low: bool)
    requires |blocks| == |idx| && forall i :: 0 <= i < |blocks| ==> blocks[i].Index == idx[i]
    ensures |Pick(blocks, idx, n, low)| == |Pick(idx, idx, n, low)|
    ensures forall m :: 0 <= m < |Pick(blocks, idx, n, low)| ==>
      IsFiled(Pick(blocks, idx, n, low)[m], Pick(idx, idx, n, low)[m], blocks, n, low)
  {
    hide Pick;
    var r, rs := Pick(blocks, idx, n, low), Pick(idx, idx, n, low);
    PickLength(blocks, idx, n, low);
    PickLength(idx, idx, n, low);
    forall m | 0 <= m < |r|
      ensures IsFiled(r[m], rs[m], blocks, n, low)
    {
      var i := PickFrom(blocks, idx, n, low, m);
      PickAtRank(idx, idx, n, low, i);
    }
  }

  /** Blocks of different places stay separate when picked. */
  lemma PickedSeparate(ctx: Gf256Ctx, blocks: seq<Block>, idx: seq<Byte>, n: nat, bytes: nat)
    requires |blocks| == |idx| && Separate(ctx, blocks, bytes)
    ensures var rec := Pick(blocks, idx, n, false);
      && Buffered(ctx, rec, bytes)
      && (forall i, j :: 0 <= i < j < |rec| ==> rec[i] != rec[j])
      && (forall i, m :: 0 <= i < |blocks| && 0 <= m < |rec| && idx[i] < n ==> blocks[i] != rec[m] && blocks[i].Data != rec[m].Data)
  {
    var rec := Pick(blocks, idx, n, false);
    forall i, j | 0 <= i < j < |rec|
      ensures rec[i] != rec[j] && rec[i].Data != rec[j].Data
    {
      var i' := PickFrom(blocks, idx, n, false, i);
      var j' := PickFrom(blocks, idx, n, false, j);
      assert i' < j' || j' < i';
    }
    forall i | 0 <= i < |rec|
      ensures rec[i].Data.Length >= bytes && rec[i].Data != ctx.invTable
    {
      var i' := PickFrom(blocks, idx, n, false, i);
    }
    forall i, m | 0 <= i < |blocks| && 0 <= m < |rec| && idx[i] < n
      ensures blocks[i] != rec[m] && blocks[i].Data != rec[m].Data
    {
      var j := PickFrom(blocks, idx, n, false, m);
      assert i < j || j < i;
    }
  }

  lemma RankGrows(idx: seq<Byte>, n: nat, low: bool, i: nat, j: nat)
    requires i < j <= |idx| && (idx[i] < n) == low
    ensures Rank(idx, n, low, i) < Rank(idx, n, low, j)
  {
    PickAtRank(idx[..j], idx[..j], n, low, i);
    assert idx[..j][..i] == idx[..i];
  }

  /** Picked items are pairwise distinct when the items of that kind are. */
  lemma PickDistinct<T>(items: seq<T>, idx: seq<Byte>, n: nat, low: bool)
    requires |items| == |idx|
    requires forall i, j :: 0 <= i < j < |items| && (idx[i] < n) == low && (idx[j] < n) == low ==> items[i] != items[j]
    ensures var r := Pick(items, idx, n, low); forall m, m' :: 0 <= m < m' < |r| ==> r[m] != r[m']
  {
    hide Pick;
    var r := Pick(items, idx, n, low);
    forall m, m' | 0 <= m < m' < |r|
      ensures r[m] != r[m']
    {
      var i := PickFrom(items, idx, n, low, m);
      var j := PickFrom(items, idx, n, low, m');
      if j < i {
        RankGrows(idx, n, low, j, i);
      }
    }
  }

  /** The received and missing indices of valid input form a recovery problem. */
  lemma GivenIsProblem(idx: seq<Byte>, n: nat, m: nat)
    requires |idx| == n && 0 < n && n + m <= 256 && NoRepeat(idx, n)
    requires forall i :: 0 <= i < n ==> idx[i] < n + m
    requires forall i, j :: 0 <= i < j < n && idx[i] >= n ==> idx[i] != idx[j]
    requires 0 < |Pick(idx, idx, n, false)|
    ensures var xs, os := Pick(idx, idx, n, false), Pick(idx, idx, n, true);
      n < 256 && Received(idx, n) == IndexSet(os, n) && Problem(xs, os, Missing(n, Received(idx, n)), n)
      && (m == 1 ==> xs == [n])
  {
    hide Pick, Missing, NoRepeat;
    var xs, os := Pick(idx, idx, n, false), Pick(idx, idx, n, true);
    var ys := Missing(n, Received(idx, n));
    PickDistinct(idx, idx, n, false);
    MissingAsRecovery(idx, n);
    forall k | 0 <= k < |xs|
      ensures n <= xs[k] < n + m
    {
      var i := PickFrom(idx, idx, n, false, k);
    }
    assert xs[0] < n + m;
    forall r: nat | r < n
      ensures r in idx <==> r in os
    {
      if r in idx {
        var i :| 0 <= i < n && idx[i] == r;
        PickAtRank(idx, idx, n, true, i);
      }
      if r in os {
        var k :| 0 <= k < |os| && os[k] == r;
        var i := PickFrom(idx, idx, n, true, k);
      }
    }
    assert |xs| >= 2 ==> xs[0] != xs[1];
  }

  method Decode(ctx: Gf256Ctx, params: Params, blocks: array?<Block>, ghost data: seq<seq<Byte>>) returns (result: int)
    requires ctx.Valid()
    requires ValidParams(params) && blocks != null ==> Given(ctx, params, blocks[..], data)
    modifies (if blocks != null then set b | b in blocks[..] else {}),
             (if blocks != null then set b | b in blocks[..] :: b.Data else {})
    ensures ParamsError(params) != 0 ==> result == ParamsError(params)
    ensures ParamsError(params) == 0 && blocks == null ==> result == -3
    ensures ParamsError(params) == 0 && blocks != null ==>
      result == if NoRepeat(old(Indices(blocks[..])), params.OriginalCount) then 0 else -5
    ensures result == 0 ==> blocks != null && Decoded(blocks[..], data, params.BlockBytes)
  {
    if params.OriginalCount <= 0 || params.RecoveryCount <= 0 || params.BlockBytes <= 0 {
      return -1;
    }
    if params.OriginalCount + params.RecoveryCount > 256 {
      return -2;
    }
    if blocks == null {
      return -3;
    }
    if params.OriginalCount == 1 {
      blocks[0].Index := 0;
      return 0;
    }
    result := Recover(ctx, params, blocks[..], data);
  }

  /** The indices that recovery leaves in the blocks are a permutation of the originals. */
  lemma AllIndices(idx: seq<Byte>, idx': seq<Byte>, n: nat)
    requires |idx| == |idx'| == n && NoRepeat(idx, n)
    requires |Missing(n, Received(idx, n))| == |Pick(idx, idx, n, false)|
    requires forall i: nat :: i < n && idx[i] < n ==> idx'[i] == idx[i]
    requires forall i: nat :: i < n && idx[i] >= n ==>
      Rank(idx, n, false, i) < |Missing(n, Received(idx, n))| && idx'[i] == Missing(n, Received(idx, n))[Rank(idx, n, false, i)]
    ensures forall i, j :: 0 <= i < j < n ==> idx'[i] != idx'[j]
  {
    var ys := Missing(n, Received(idx, n));
    forall i, j | 0 <= i < j < n
      ensures idx'[i] != idx'[j]
    {
      if idx[i] >= n && idx[j] >= n {
        RankGrows(idx, n, false, i, j);
      }
    }
  }

  /** The part of cm256_decode after the parameter checks. */
  method Recover(ctx: Gf256Ctx, params: Params, blocks: seq<Block>, ghost data: seq<seq<Byte>>) returns (result: int)
    requires ctx.Valid() && ValidParams(params) && params.OriginalCount > 1 && Given(ctx, params, blocks, data)
    modifies set b | b in blocks, set b | b in blocks :: b.Data
    ensures result == if NoRepeat(old(Indices(blocks)), params.OriginalCount) then 0 else -5
    ensures result == 0 ==> Decoded(blocks, data, params.BlockBytes)
  {
    hide ctx.Valid, Pick, NoRepeat, Missing, Received, Encoded, Problem, IndexSet, SumState, RowsAre, Originals;
    var n, bytes := params.OriginalCount, params.BlockBytes;
    ghost var idx := Indices(blocks);
    var state := new Decoder(ctx);
    var ok := state.Initialize(params, blocks);
    assert Given(ctx, params, blocks, data);
    if !ok {
      return -5;
    }
    if |state.recovery| <= 0 {
      NothingMissing(blocks, idx, data, n, bytes);
      return 0;
    }
    RecoverMissing(ctx, params, blocks, state.original, state.recovery, state.erasures, data, idx);
    return 0;
  }

  /** The filed blocks make up a recovery problem in separate buffers. */
  ghost predicate Filed(ctx: Gf256Ctx, rec: seq<Block>, orig: seq<Block>, erasures: array<Byte>, n: nat, m: nat, bytes: nat,
    xs: seq<Byte>, os: seq<Byte>, ys: seq<Byte>, data: seq<seq<Byte>>)
    reads rec, set b | b in rec :: b.Data
    reads orig, set b | b in orig :: b.Data
    reads erasures
  {
    && Buffered(ctx, rec, bytes) && |xs| == |rec| == |ys|
    && Rectangular(data, bytes) && n == |data| < 256 && Problem(xs, os, ys, n)
    && (forall m :: 0 <= m < |rec| ==> rec[m].Index == xs[m] && rec[m].Data != erasures)
    && (forall i, j :: 0 <= i < j < |rec| ==> rec[i] != rec[j])
    && |xs| <= erasures.Length && (forall m :: 0 <= m < |xs| ==> erasures[m] == ys[m])
    && Originals(orig, os, rec, data, bytes)
    && RowsAre(rec, bytes, InputRows(xs, data, bytes))
    && (m == 1 ==> xs == [n])
  }

  /** Recovery block m holds the m-th missing original, under its index. */
  ghost predicate RecoveredRows(rec: seq<Block>, ys: seq<Byte>, data: seq<seq<Byte>>, bytes: nat)
    reads rec, set b | b in rec :: b.Data
  {
    && |rec| == |ys|
    && forall m :: 0 <= m < |rec| ==>
         && rec[m].Index == ys[m] < |data|
         && bytes <= rec[m].Data.Length && rec[m].Data[..bytes] == data[ys[m]]
  }

  lemma FiledHolds(ctx: Gf256Ctx, params: Params, blocks: seq<Block>, erasures: array<Byte>, data: seq<seq<Byte>>, idx: seq<Byte>)
    requires ValidParams(params) && params.OriginalCount > 1 && Given(ctx, params, blocks, data)
    requires idx == Indices(blocks) && NoRepeat(idx, params.OriginalCount)
    requires Pick(blocks, idx, params.OriginalCount, false) != []
    requires var ys := Missing(params.OriginalCount, Received(idx, params.OriginalCount));
      |ys| <= erasures.Length && forall m :: 0 <= m < |ys| ==> erasures[m] == ys[m]
    requires forall b :: b in blocks ==> b.Data != erasures
    ensures var n := params.OriginalCount;
      Filed(ctx, Pick(blocks, idx, n, false), Pick(blocks, idx, n, true), erasures, n, params.RecoveryCount, params.BlockBytes,
        Pick(idx, idx, n, false), Pick(idx, idx, n, true), Missing(n, Received(idx, n)), data)
  {
    hide Pick, NoRepeat, Missing, Received, Problem, Originals, RowsAre, Encoded;
    var n, bytes := params.OriginalCount, params.BlockBytes;
    var rec, xs := Pick(blocks, idx, n, false), Pick(idx, idx, n, false);
    FiledIndices(blocks, idx, n, false);
    MissingAsRecovery(idx, n);
    GivenIsProblem(idx, n, params.RecoveryCount);
    PickedSeparate(ctx, blocks, idx, n, bytes);
    OriginalsFiled(ctx, params, blocks, data, idx);
    RecoveryFiled(ctx, params, blocks, data, idx);
    forall m | 0 <= m < |rec|
      ensures rec[m].Index == xs[m] && rec[m].Data != erasures
    {
      assert IsFiled(rec[m], xs[m], blocks, n, false);
    }
  }

  /** Either decoder: the sum when there is one recovery row in the code, else elimination. */
  method SolveFiled(ctx: Gf256Ctx, rec: seq<Block>, orig: seq<Block>, erasures: array<Byte>, n: nat, m: nat, bytes: nat,
    ghost xs: seq<Byte>, ghost os: seq<Byte>, ghost ys: seq<Byte>, ghost data: seq<seq<Byte>>)
    requires ctx.Valid() && Filed(ctx, rec, orig, erasures, n, m, bytes, xs, os, ys, data)
    modifies rec, set b | b in rec :: b.Data
    ensures RecoveredRows(rec, ys, data, bytes)
  {
    hide ctx.Valid, Problem, Originals, SumState, SumRow, RowsAre;
    MissingInside(xs, os, ys, n);
    if m == 1 {
      OnlyRow(rec, xs, data, bytes);
      DecodeM1(ctx, rec, orig, erasures, bytes, os, ys, data);
    } else {
      Solve(ctx, rec, orig, erasures, n, bytes, InputRows(xs, data, bytes), xs, os, ys, data);
      SolvedRows(rec, ys, data, bytes);
    }
  }

  lemma MissingInside(xs: seq<Byte>, os: seq<Byte>, ys: seq<Byte>, n: nat)
    requires Problem(xs, os, ys, n)
    ensures forall m :: 0 <= m < |ys| ==> ys[m] < n
  {
  }

  lemma OnlyRow(rec: seq<Block>, xs: seq<Byte>, data: seq<seq<Byte>>, bytes: nat)
    requires |xs| == |rec| == 1 && |data| < 256 && xs[0] == |data| && Rectangular(data, bytes) && bytes <= rec[0].Data.Length
    requires RowsAre(rec, bytes, InputRows(xs, data, bytes))
    ensures rec[0].Data[..bytes] == SumRow(|data|, |data|, data, bytes, |data|, {})
  {
    hide SumRow;
  }

  lemma SolvedRows(rec: seq<Block>, ys: seq<Byte>, data: seq<seq<Byte>>, bytes: nat)
    requires |rec| == |ys| && Rectangular(data, bytes) && (forall m :: 0 <= m < |ys| ==> ys[m] < |data|)
    requires forall m :: 0 <= m < |rec| ==> rec[m].Index == ys[m] && bytes <= rec[m].Data.Length
    requires RowsAre(rec, bytes, MissingRows(data, bytes, ys))
    ensures RecoveredRows(rec, ys, data, bytes)
  {
  }

  /** The recovery blocks, once filed, are turned into the missing originals. */
  method RecoverMissing(ctx: Gf256Ctx, params: Params, blocks: seq<Block>, orig: seq<Block>, rec: seq<Block>, erasures: array<Byte>,
    ghost data: seq<seq<Byte>>, ghost idx: seq<Byte>)
    requires ctx.Valid() && ValidParams(params) && params.OriginalCount > 1 && Given(ctx, params, blocks, data)
    requires idx == Indices(blocks) && NoRepeat(idx, params.OriginalCount)
    requires orig == Pick(blocks, idx, params.OriginalCount, true) && rec == Pick(blocks, idx, params.OriginalCount, false) != []
    requires var ys := Missing(params.OriginalCount, Received(idx, params.OriginalCount));
      |ys| <= erasures.Length && forall m :: 0 <= m < |ys| ==> erasures[m] == ys[m]
    requires forall b :: b in blocks ==> b.Data != erasures
    modifies set b | b in blocks, set b | b in blocks :: b.Data
    ensures Decoded(blocks, data, params.BlockBytes)
  {
    hide ctx.Valid, Pick, NoRepeat, Missing, Received, Filed, Given, Decoded, Encoded;
    var n, bytes := params.OriginalCount, params.BlockBytes;
    ghost var xs, os := Pick(idx, idx, n, false), Pick(idx, idx, n, true);
    ghost var ys := Missing(n, Received(idx, n));
    FiledHolds(ctx, params, blocks, erasures, data, idx);
    Untouched(ctx, params, blocks, data, idx);
    SolveFiled(ctx, rec, orig, erasures, n, params.RecoveryCount, bytes, xs, os, ys, data);
    Finished(blocks, idx, data, n, bytes);
  }

  /** The received originals already hold their bytes, and no recovery buffer overlaps them. */
  lemma Untouched(ctx: Gf256Ctx, params: Params, blocks: seq<Block>, data: seq<seq<Byte>>, idx: seq<Byte>)
    requires ValidParams(params) && params.OriginalCount > 1 && Given(ctx, params, blocks, data) && idx == Indices(blocks)
    ensures |blocks| == |data| == params.OriginalCount
    ensures forall i: nat :: i < |blocks| && idx[i] < params.OriginalCount ==>
      && blocks[i].Index == idx[i] && params.BlockBytes <= blocks[i].Data.Length
      && blocks[i].Data[..params.BlockBytes] == data[idx[i]]
    ensures forall i, m :: 0 <= i < |blocks| && 0 <= m < |Pick(blocks, idx, params.OriginalCount, false)| && idx[i] < params.OriginalCount ==>
      && blocks[i] != Pick(blocks, idx, params.OriginalCount, false)[m]
      && blocks[i].Data != Pick(blocks, idx, params.OriginalCount, false)[m].Data
    ensures forall b :: b in Pick(blocks, idx, params.OriginalCount, false) ==> b in blocks
  {
    var n := params.OriginalCount;
    PickedSeparate(ctx, blocks, idx, n, params.BlockBytes);
    forall b | b in Pick(blocks, idx, n, false)
      ensures b in blocks
    {
      var m :| 0 <= m < |Pick(blocks, idx, n, false)| && Pick(blocks, idx, n, false)[m] == b;
      var i := PickFrom(blocks, idx, n, false, m);
    }
  }

  /** Recovered blocks and received originals together are all the originals. */
  lemma Finished(blocks: seq<Block>, idx: seq<Byte>, data: seq<seq<Byte>>, n: nat, bytes: nat)
    requires |blocks| == |idx| == |data| == n <= 256 && NoRepeat(idx, n)
    requires forall i: nat :: i < n && idx[i] < n ==>
      blocks[i].Index == idx[i] && bytes <= blocks[i].Data.Length && blocks[i].Data[..bytes] == data[idx[i]]
    requires RecoveredRows(Pick(blocks, idx, n, false), Missing(n, Received(idx, n)), data, bytes)
    ensures Decoded(blocks, data, bytes)
  {
    var rec, ys, after := Pick(blocks, idx, n, false), Missing(n, Received(idx, n)), Indices(blocks);
    MissingAsRecovery(idx, n);
    forall i: nat | i < n && idx[i] >= n
      ensures Rank(idx, n, false, i) < |ys| && after[i] == ys[Rank(idx, n, false, i)]
      ensures bytes <= blocks[i].Data.Length && blocks[i].Data[..bytes] == data[after[i]]
    {
      PickAtRank(blocks, idx, n, false, i);
    }
    AllIndices(idx, after, n);
  }

  lemma NothingMissing(blocks: seq<Block>, idx: seq<Byte>, data: seq<seq<Byte>>, n: nat, bytes: nat)
    requires idx == Indices(blocks) && |idx| == n == |data| && 1 < n < 256 && NoRepeat(idx, n) && Rectangular(data, bytes)
    requires Pick(blocks, idx, n, false) == []
    requires forall i :: 0 <= i < n ==>
      bytes <= blocks[i].Data.Length && blocks[i].Data[..bytes] == Encoded(data, bytes, blocks[i].Index)
    ensures Decoded(blocks, data, bytes)
  {
    hide Pick;
    forall i | 0 <= i < n
      ensures idx[i] < n
    {
      if idx[i] >= n {
        PickAtRank(blocks, idx, n, false, i);
      }
    }
  }

  /** The rows of the recovery blocks before any elimination. */
  ghost function InputRows(xs: seq<Byte>, data: seq<seq<Byte>>, bytes: nat): (rows: seq<seq<Byte>>)
    requires Rectangular(data, bytes) && |data| < 256
    ensures |rows| == |xs|
    ensures SumState(rows, xs, data, bytes, {}, 0, 0)
  {
    seq(|xs|, m requires 0 <= m < |xs| => SumRow(xs[m], |data|, data, bytes, |data|, {}))
  }

  lemma RecoveryFiled(ctx: Gf256Ctx, params: Params, blocks: seq<Block>, data: seq<seq<Byte>>, idx: seq<Byte>)
    requires ValidParams(params) && params.OriginalCount > 1 && Given(ctx, params, blocks, data)
    requires idx == Indices(blocks)
    ensures var n, bytes := params.OriginalCount, params.BlockBytes;
      var rec, xs := Pick(blocks, idx, n, false), Pick(idx, idx, n, false);
      && |rec| == |xs| && (forall m :: 0 <= m < |rec| ==> bytes <= rec[m].Data.Length)
      && RowsAre(rec, bytes, InputRows(xs, data, bytes))
  {
    hide Pick;
    var n, bytes := params.OriginalCount, params.BlockBytes;
    var rec, xs := Pick(blocks, idx, n, false), Pick(idx, idx, n, false);
    FiledIndices(blocks, idx, n, false);
    forall m | 0 <= m < |rec|
      ensures bytes <= rec[m].Data.Length && rec[m].Data[..bytes] == InputRows(xs, data, bytes)[m]
    {
      assert IsFiled(rec[m], xs[m], blocks, n, false);
    }
  }

  lemma OriginalsFiled(ctx: Gf256Ctx, params: Params, blocks: seq<Block>, data: seq<seq<Byte>>, idx: seq<Byte>)
    requires ValidParams(params) && params.OriginalCount > 1 && Given(ctx, params, blocks, data)
    requires idx == Indices(blocks) && NoRepeat(idx, params.OriginalCount)
    ensures var n, bytes := params.OriginalCount, params.BlockBytes;
      Originals(Pick(blocks, idx, n, true), Pick(idx, idx, n, true), Pick(blocks, idx, n, false), data, bytes)
  {
    var n, bytes := params.OriginalCount, params.BlockBytes;
    var rec, orig, os := Pick(blocks, idx, n, false), Pick(blocks, idx, n, true), Pick(idx, idx, n, true);
    FiledIndices(blocks, idx, n, true);
    PickDistinct(idx, idx, n, true);
    PickedSeparate(ctx, blocks, idx, n, bytes);
    forall o | 0 <= o < |orig|
      ensures orig[o].Index == os[o] < n && bytes <= orig[o].Data.Length && orig[o].Data[..bytes] == data[os[o]]
      ensures forall m :: 0 <= m < |rec| ==> orig[o].Data != rec[m].Data
    {
      assert IsFiled(orig[o], os[o], blocks, n, true);
      var i := PickFrom(blocks, idx, n, true, o);
    }
  }
}
