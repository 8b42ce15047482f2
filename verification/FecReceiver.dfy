/**
 * CliFecDecoder: blocks stored per group within a byte budget, originals emitted on arrival, the
 * rest decoded once enough blocks are there. Whatever bytes arrive, each call has the effect that
 * module FecTable specifies.
 */
module FecReceiver {
  import opened Bytes
  import opened Collections
  import opened Gf256Tables
  import opened Cm256
  import D = Cm256Decoder
  import opened Cauchy
  import opened FecGroups
  import opened FecTable
  import S = FecStream

  // ---------------------------------------------------------------- one group

  /** When every original is stored nothing is missing. */
  lemma NothingMissing(g: Group, data: seq<seq<Byte>>)
    requires Stores(g, data) && |g.emittedOriginals| >= g.dataCount
    ensures Missing(g.dataCount, Indices(g)) == []
  {
    hide Encoded, Rectangular, Missing;
    var n: nat := g.dataCount;
    var e: set<nat> := g.emittedOriginals;
    assert e <= UpTo(n);
    SameSet(e, UpTo(n));
    MissingAll(n, Indices(g));
    EmptyMissing(Missing(n, Indices(g)), n, Indices(g), e);
  }

  lemma EmptyMissing(ys: seq<nat>, n: nat, stored: set<nat>, e: set<nat>)
    requires (forall i: nat :: i in ys <==> i < n && i !in stored) && e == UpTo(n) && e <= stored
    ensures ys == []
  {
    if ys != [] {
      HasMember(ys);
    }
  }

  lemma HasMember(ys: seq<nat>)
    requires ys != []
    ensures exists i: nat :: i in ys
  {
    assert ys[0] in ys;
  }

  /** A group without recovery blocks is complete when all its blocks are originals. */
  lemma NoRecovery(g: Group, data: seq<seq<Byte>>)
    requires Stores(g, data) && g.totalCount == g.dataCount && |g.blocks| >= g.dataCount
    ensures |g.emittedOriginals| >= g.dataCount
  {
    hide Encoded, Rectangular;
    assert g.emittedOriginals == g.blocks.Keys;
    assert |g.blocks.Keys| == |g.blocks|;
  }

  // ---------------------------------------------------------------- decoding one group

  method Smallest(s: set<Byte>) returns (k: Byte)
    requires s != {}
    ensures k in s && forall x :: x in s ==> k <= x
  {
    k :| k in s;
    var below := set x | x in s && x < k;
    while below != {}
      invariant k in s && below == set x | x in s && x < k
      decreases k
    {
      k :| k in below;
      below := set x | x in s && x < k;
    }
    assert forall x :: x in s && x < k ==> x in below;
  }

  /** The first n blocks in the order of their indices. */
  method FirstBlocks(blocks: map<Byte, seq<Byte>>, n: nat) returns (indices: seq<Byte>, contents: seq<seq<Byte>>)
    requires |blocks| >= n
    ensures |indices| == |contents| == n
    ensures forall i, j :: 0 <= i < j < n ==> indices[i] < indices[j]
    ensures forall i :: 0 <= i < n ==> indices[i] in blocks && contents[i] == blocks[indices[i]]
  {
    indices, contents := [], [];
    var left := blocks.Keys;
    assert |left| == |blocks|;
    while |indices| < n
      invariant |indices| == |contents| <= n && |left| == |blocks| - |indices| && left <= blocks.Keys
      invariant forall i, j :: 0 <= i < j < |indices| ==> indices[i] < indices[j]
      invariant forall i :: 0 <= i < |indices| ==> indices[i] in blocks && contents[i] == blocks[indices[i]]
      invariant forall i, x :: 0 <= i < |indices| && x in left ==> indices[i] < x
    {
      var k := Smallest(left);
      indices, contents := indices + [k], contents + [blocks[k]];
      left := left - {k};
    }
  }

  ghost function Values(idx: seq<Byte>): (s: set<nat>)
  {
    if idx == [] then {} else Values(idx[..|idx| - 1]) + {idx[|idx| - 1] as nat}
  }

  lemma {:induction false} ValuesIn(idx: seq<Byte>, x: nat)
    ensures x in Values(idx) <==> exists k :: 0 <= k < |idx| && idx[k] == x
  {
    if idx != [] {
      ValuesIn(idx[..|idx| - 1], x);
    }
  }

  /** Different indices are as many values. */
  lemma {:induction false} ValuesOf(idx: seq<Byte>)
    requires forall k, j :: 0 <= k < j < |idx| ==> idx[k] != idx[j]
    ensures |Values(idx)| == |idx|
  {
    if idx != [] {
      ValuesOf(idx[..|idx| - 1]);
      ValuesIn(idx[..|idx| - 1], idx[|idx| - 1]);
    }
  }

  lemma AllFound(idx: seq<Byte>, n: nat, i: nat)
    requires |idx| == n && i < n
    requires forall k :: 0 <= k < n ==> idx[k] < n
    requires forall k, j :: 0 <= k < j < n ==> idx[k] != idx[j]
    ensures i in idx
  {
    ValuesOf(idx);
    forall x | x in Values(idx)
      ensures x in UpTo(n)
    {
      ValuesIn(idx, x);
    }
    SameSet(Values(idx), UpTo(n));
    assert i in UpTo(n);
    ValuesIn(idx, i);
  }

  /** cm256_decode on copies of the blocks; the originals by index. */
  method DecodeBlocks(ctx: Gf256Ctx, indices: seq<Byte>, contents: seq<seq<Byte>>, n: nat, m: nat, bytes: nat, ghost data: seq<seq<Byte>>)
    returns (result: int, originals: map<nat, seq<Byte>>)
    requires ctx.Valid() && |indices| == |contents| == n == |data| && 1 <= n <= 10 && 0 < m <= 20 && 0 < bytes
    requires Rectangular(data, bytes)
    requires forall i, j :: 0 <= i < j < n ==> indices[i] < indices[j]
    requires forall i :: 0 <= i < n ==> indices[i] < n + m && contents[i] == Encoded(data, bytes, indices[i])
    ensures result == 0 && forall i: nat :: i < n ==> i in originals && originals[i] == data[i]
  {
    hide ctx.Valid, Encoded, D.Given, D.Decoded, D.NoRepeat;
    var blocks := S.MakeBlocks(indices, contents, bytes);
    S.HeldSeparate(ctx, blocks, indices, contents, bytes);
    var table := new Block[n](i requires 0 <= i < n => blocks[i]);
    assert table[..] == blocks;
    IsGiven(ctx, blocks, indices, contents, n, m, bytes, data);
    result := D.Decode(ctx, Params(n, m, bytes), table, data);
    assert table[..] == blocks;
    originals := Collect(blocks, bytes, data);
  }

  lemma IsGiven(ctx: Gf256Ctx, blocks: seq<Block>, indices: seq<Byte>, contents: seq<seq<Byte>>, n: nat, m: nat, bytes: nat,
    data: seq<seq<Byte>>)
    requires S.Hold(blocks, indices, contents, bytes) && Separate(ctx, blocks, bytes)
    requires |indices| == n == |data| && 1 <= n <= 10 && 0 < m <= 20 && 0 < bytes && Rectangular(data, bytes)
    requires forall i, j :: 0 <= i < j < n ==> indices[i] < indices[j]
    requires forall i :: 0 <= i < n ==> indices[i] < n + m && contents[i] == Encoded(data, bytes, indices[i])
    ensures ValidParams(Params(n, m, bytes)) && D.Given(ctx, Params(n, m, bytes), blocks, data)
    ensures D.NoRepeat(D.Indices(blocks), n)
  {
    hide Encoded, Separate;
    assert D.Indices(blocks) == indices;
    forall i | 0 <= i < n
      ensures blocks[i].Data[..bytes] == contents[i]
    {
      assert blocks[i].Data[..bytes] == blocks[i].Data[..];
    }
  }

  /** The decoded blocks by their indices. */
  method Collect(blocks: seq<Block>, bytes: nat, ghost data: seq<seq<Byte>>) returns (originals: map<nat, seq<Byte>>)
    requires |data| <= 256 && D.Decoded(blocks, data, bytes)
    ensures forall i: nat :: i < |data| ==> i in originals && originals[i] == data[i]
  {
    originals := map[];
    ghost var after := D.Indices(blocks);
    for i := 0 to |blocks|
      invariant forall k: nat :: k in originals ==> k < |data| && originals[k] == data[k]
      invariant forall k :: 0 <= k < i ==> after[k] as nat in originals
    {
      originals := originals[blocks[i].Index as nat := blocks[i].Data[..bytes]];
    }
    forall i: nat | i < |data|
      ensures i in originals
    {
      AllFound(after, |data|, i);
    }
  }

  lemma MissingNext(n: nat, s: set<nat>)
    ensures Missing(n + 1, s) == Missing(n, s) + (if n in s then [] else [n])
    ensures Missing(0, s) == []
  {
  }

  lemma NoPayloads(data: seq<seq<Byte>>)
    ensures PayloadsOf(data, []) == []
  {
  }

  lemma PayloadsNext(data: seq<seq<Byte>>, xs: seq<nat>, i: nat)
    requires i < |data| && forall k :: 0 <= k < |xs| ==> xs[k] < |data|
    ensures PayloadsOf(data, xs + [i]) == PayloadsOf(data, xs) + PayloadOf(data[i])
  {
    hide PayloadOf;
    assert (xs + [i])[..|xs|] == xs;
  }

  lemma OriginalIfBelow(g: Group, data: seq<seq<Byte>>, idx: Byte)
    requires Stores(g, data) && idx in g.blocks && idx < g.dataCount
    ensures g.blocks[idx] == data[idx]
  {
    hide SumRow;
  }

  // ---------------------------------------------------------------- the decoder

  class FecDecoder {
    const ctx: Gf256Ctx
    var groups: Groups
    var bufferedBytes: nat
    /** What the output callback has been given. */
    var output: seq<seq<Byte>>

    /** The byte count is exact. */
    ghost predicate Counted()
      reads this
    {
      bufferedBytes == Total(groups) && TableOk(groups)
    }

    ghost predicate Valid()
      reads this, ctx.mulTable, ctx.divTable, ctx.invTable, ctx.loTable, ctx.hiTable
    {
      ctx.Valid() && Counted() && bufferedBytes <= MAX_BUFFERED && |groups| <= MAX_GROUPS
    }

    constructor (ctx: Gf256Ctx)
      requires ctx.Valid()
      ensures Valid() && this.ctx == ctx && groups == map[] && output == []
    {
      this.ctx := ctx;
      groups, bufferedBytes, output := map[], 0, [];
      new;
      NoBytes(groups);
    }

    // -------------------------------------------------------------- eviction

    /** removeGroup. The byte count never has to be cut off at zero. */
    method RemoveGroup(gid: Byte)
      requires Counted()
      modifies this`groups, this`bufferedBytes
      ensures Counted() && groups == old(groups) - {gid} && bufferedBytes <= old(bufferedBytes)
    {
      hide GroupOk, GroupBytes, Total;
      if gid !in groups {
        assert groups - {gid} == groups;
        return;
      }
      var bytes := SumOfBlocks(groups[gid]);
      TotalWithout(groups, gid);
      bufferedBytes := Saturating(bufferedBytes, bytes);
      groups := groups - {gid};
    }

    method SumOfBlocks(g: Group) returns (bytes: nat)
      requires GroupOk(g)
      ensures bytes == GroupBytes(g)
    {
      hide Originals;
      bytes := 0;
      var left := g.blocks.Keys;
      ghost var count: nat := 0;
      assert |left| == |g.blocks|;
      while left != {}
        invariant left <= g.blocks.Keys && |left| == |g.blocks| - count && bytes == count * g.blockBytes
        decreases |left|
      {
        var k := Smallest(left);
        assert (count + 1) * g.blockBytes == count * g.blockBytes + g.blockBytes;
        bytes := bytes + |g.blocks[k]|;
        left := left - {k};
        count := count + 1;
      }
    }

    /** The group with the numerically smallest creation time, the first such in key order. */
    method FindOldest() returns (gid: Byte)
      requires groups != map[]
      ensures IsOldest(groups, gid)
    {
      var left := groups.Keys;
      assert left != {};
      gid := Smallest(left);
      while left != {}
        invariant gid in groups && left <= groups.Keys
        invariant forall k, x :: k in groups && k !in left && x in left ==> k < x
        invariant left == groups.Keys || gid !in left
        invariant left == groups.Keys ==> forall k :: k in groups ==> gid <= k
        invariant forall k :: k in groups && k !in left ==>
          groups[gid].createTime < groups[k].createTime || (groups[gid].createTime == groups[k].createTime && gid <= k)
        decreases |left|
      {
        var k := Smallest(left);
        if groups[k].createTime < groups[gid].createTime {
          gid := k;
        }
        left := left - {k};
      }
    }

    /** ensureCapacity: the oldest groups are evicted until the block fits. It succeeds exactly when the
     * block alone fits the budget. */
    method EnsureCapacity(incoming: nat, newGroup: bool) returns (ok: bool)
      requires Valid()
      modifies this`groups, this`bufferedBytes
      ensures Valid() && ok == (incoming <= 262144)
      ensures groups == if ok then Evict(old(groups), incoming, newGroup) else old(groups)
      ensures ok ==> !Over(groups, incoming, newGroup)
    {
      hide ctx.Valid, GroupOk, Total, IsOldest;
      if incoming > MAX_BUFFERED {
        return false;
      }
      while groups != map[] && ((newGroup && |groups| >= MAX_GROUPS) || bufferedBytes + incoming > MAX_BUFFERED)
        invariant Valid()
        invariant Evict(groups, incoming, newGroup) == Evict(old(groups), incoming, newGroup)
        decreases |groups|
      {
        var oldest := FindOldest();
        OnlyOldest(groups, oldest);
        Smaller(groups, oldest);
        RemoveGroup(oldest);
      }
      if groups == map[] {
        NoBytes(groups);
      }
      return (!newGroup || |groups| < MAX_GROUPS) && bufferedBytes + incoming <= MAX_BUFFERED;
    }

    /** cleanup: exactly the groups older than the timeout go. */
    method Cleanup(now: int)
      requires Valid()
      modifies this`groups, this`bufferedBytes
      ensures Valid() && groups == Cleaned(old(groups), now)
      ensures forall k :: k in groups <==> k in old(groups) && (now - old(groups)[k].createTime) % 0x1_0000_0000 <= 500
      ensures forall k :: k in groups ==> groups[k] == old(groups)[k]
    {
      CleanedMeans(groups, now);
      hide ctx.Valid, GroupOk, Total, Age, Counted, TableOk, Cleaned;
      ghost var start := groups;
      var left := groups.Keys;
      while left != {}
        invariant Valid() && left <= groups.Keys
        invariant forall k :: k in groups ==> k in old(groups) && groups[k] == old(groups)[k]
        invariant forall k :: k in old(groups) && k !in groups ==> Age(now, old(groups)[k].createTime) > GROUP_TIMEOUT_MS
        invariant forall k :: k in groups && k !in left ==> Age(now, groups[k].createTime) <= GROUP_TIMEOUT_MS
        decreases |left|
      {
        var k := Smallest(left);
        left := left - {k};
        if Age(now, groups[k].createTime) > GROUP_TIMEOUT_MS {
          Smaller(groups, k);
          RemoveGroup(k);
        }
      }
      CleanedIs(start, groups, now);
    }

    // -------------------------------------------------------------- taking a block

    /** emitOriginalBlock */
    method EmitOriginalBlock(block: seq<Byte>)
      modifies this`output
      ensures output == old(output) + PayloadOf(block)
    {
      if |block| < 2 {
        assert output + [] == output;
        return;
      }
      var hi: int, lo: int := block[0], block[1];
      var payloadLen := 256 * hi + lo;
      if payloadLen > 0 && 2 + payloadLen <= |block| {
        output := output + [block[2..2 + payloadLen]];
      } else {
        assert output + [] == output;
      }
    }

    /** tryDecode, for a group with exactly as many blocks as originals. The blocks are those of some
     * code word, so cm256_decode does not fail. */
    method TryDecode(gid: Byte, ghost data: seq<seq<Byte>>)
      requires ctx.Valid() && gid in groups && Stores(groups[gid], data)
      requires !groups[gid].decoded && |groups[gid].blocks| == groups[gid].dataCount
      modifies this`groups, this`output
      ensures groups == old(groups)[gid := old(groups)[gid].(decoded := true)]
      ensures output == old(output) + PayloadsOf(data, Missing(groups[gid].dataCount, Indices(old(groups)[gid])))
    {
      hide ctx.Valid, Encoded, Missing, PayloadsOf;
      var g := groups[gid];
      var n: nat := g.dataCount;
      if |g.emittedOriginals| >= n {
        NothingMissing(g, data);
        NoPayloads(data);
        assert output + [] == output;
        groups := groups[gid := g.(decoded := true)];
        return;
      }
      if g.totalCount == g.dataCount {
        NoRecovery(g, data);
      }
      var m: nat := g.totalCount - n;
      var indices, contents := FirstBlocks(g.blocks, n);
      var result, originals := DecodeBlocks(ctx, indices, contents, n, m, g.blockBytes, data);
      if result != 0 {
        assert false;
      }
      EmitMissing(g, originals, data);
      groups := groups[gid := g.(decoded := true)];
    }

    method EmitMissing(g: Group, originals: map<nat, seq<Byte>>, ghost data: seq<seq<Byte>>)
      requires Stores(g, data) && forall i: nat :: i < g.dataCount ==> i in originals && originals[i] == data[i]
      modifies this`output
      ensures output == old(output) + PayloadsOf(data, Missing(g.dataCount, Indices(g)))
    {
      hide Encoded, Missing, PayloadsOf, PayloadOf;
      var n: nat := g.dataCount;
      NoPayloads(data);
      MissingNext(0, Indices(g));
      assert output + [] == output;
      for i := 0 to n
        invariant output == old(output) + PayloadsOf(data, Missing(i, Indices(g)))
      {
        MissingNext(i, Indices(g));
        PayloadsNext(data, Missing(i, Indices(g)), i);
        if i as Byte in g.emittedOriginals {
          assert Missing(i, Indices(g)) + [] == Missing(i, Indices(g));
        } else {
          ghost var before := output;
          EmitOriginalBlock(originals[i]);
          assert output == before + PayloadOf(data[i]);
          Associates(old(output), PayloadsOf(data, Missing(i, Indices(g))), PayloadOf(data[i]));
        }
      }
    }

    /** A block that is not stored yet is stored, and emitted if it is an original. */
    method StoreBlock(gid: Byte, idx: Byte, block: seq<Byte>, ghost data: seq<seq<Byte>>)
      requires gid in groups && idx !in groups[gid].blocks && |data| == groups[gid].dataCount
      requires idx < groups[gid].dataCount ==> block == data[idx]
      modifies this`groups, this`bufferedBytes, this`output
      ensures groups == old(groups)[gid := Added(old(groups)[gid], idx, block)]
      ensures bufferedBytes == old(bufferedBytes) + |block|
      ensures output == old(output) + PayloadsOf(data, AtOnce(old(groups)[gid].dataCount, Progress(Indices(old(groups)[gid]), false), idx))
    {
      hide PayloadsOf, PayloadOf;
      var g := groups[gid];
      bufferedBytes := bufferedBytes + |block|;
      if idx < g.dataCount {
        EmitOriginalBlock(block);
        PayloadsOne(data, idx);
        groups := groups[gid := g.(blocks := g.blocks[idx := block], emittedOriginals := g.emittedOriginals + {idx})];
      } else {
        NoPayloads(data);
        assert output + [] == output && g.emittedOriginals + {} == g.emittedOriginals;
        groups := groups[gid := g.(blocks := g.blocks[idx := block])];
      }
    }

    /** A new block is stored, and the group decoded if that completes it. */
    method StoreAndDecode(gid: Byte, idx: Byte, block: seq<Byte>)
      requires ctx.Valid() && Counted() && gid in groups && !groups[gid].decoded && idx !in groups[gid].blocks
      requires idx < groups[gid].totalCount && |block| == groups[gid].blockBytes
      modifies this`groups, this`bufferedBytes, this`output
      ensures Counted() && bufferedBytes == old(bufferedBytes) + |block|
      ensures groups == old(groups)[gid := Next(old(groups)[gid], idx, block)] && GroupOk(groups[gid])
      ensures output == old(output) + Emission(Word(groups[gid]), ProgressOf(old(groups)[gid]), idx)
    {
      hide ctx.Valid, Encoded, Total, GroupBytes, PayloadsOf, AtOnce, Missing, Originals, Stores, Word, Emission, Next, Added, GroupOk;
      ghost var start, before, out := groups, groups[gid], output;
      ghost var stored, next := Added(before, idx, block), Next(before, idx, block);
      NextOk(before, idx, block);
      AddedBytes(before, idx, block);
      TotalWith(groups, gid, next);
      ghost var data := Word(next);
      WordAdded(before, idx, block, data);
      StoreBlock(gid, idx, block, data);
      Overwritten(start, gid, stored, next);
      if |groups[gid].blocks| >= groups[gid].dataCount {
        TryDecode(gid, data);
        TwoEmissions(data, before, idx, out);
      } else {
        OneEmission(data, before, idx);
      }
    }

    /** The part of addPacket that works on a stored group. */
    method TakeBlock(gid: Byte, idx: Byte, block: seq<Byte>)
      requires Valid() && gid in groups && idx < groups[gid].totalCount && |block| == groups[gid].blockBytes
      modifies this`groups, this`bufferedBytes, this`output
      ensures Valid()
      ensures groups == Take(old(groups), gid, idx, block).0 && output == old(output) + Take(old(groups), gid, idx, block).1
    {
      hide ctx.Valid, Total, GroupBytes, Word, Emission, GroupOk, Next, Evict, ProgressOf, Encoded;
      assert output + [] == output;
      if groups[gid].decoded {
        return;
      }
      if idx !in groups[gid].blocks {
        SizeFits(groups[gid]);
        var ok := EnsureCapacity(|block|, false);
        if !ok {
          assert false;
        }
        if gid !in groups {
          return;
        }
        ghost var before := groups;
        StoreAndDecode(gid, idx, block);
        SameSize(before, gid, groups[gid]);
      }
    }

    /** addPacket, for any bytes. */
    method AddPacket(p: seq<Byte>, now: int)
      requires Valid()
      modifies this`groups, this`bufferedBytes, this`output
      ensures Valid()
      ensures groups == Process(old(groups), p, now).0 && output == old(output) + Process(old(groups), p, now).1
      ensures !(|p| > 4 && 1 <= p[2] <= 10 && p[2] <= p[3] <= 3 * (p[2] as int) && p[1] < p[3]) ==>
        groups == old(groups) && output == old(output)
    {
      hide ctx.Valid, GroupOk, Total, Take, Evict, Fresh;
      assert output + [] == output;
      if |p| < 4 {
        return;
      }
      var gid, idx, n, total := p[0], p[1], p[2], p[3];
      if n < 1 || n > 10 || total < n || total > 3 * (n as int) || idx >= total {
        return;
      }
      var blockLen := |p| - 4;
      if blockLen <= 0 {
        return;
      }
      if gid in groups && (groups[gid].dataCount != n || groups[gid].totalCount != total || groups[gid].blockBytes != blockLen) {
        RemoveGroup(gid);
        return;
      }
      Enter(p, now);
    }

    /** The rest of addPacket: a group is opened if there is none, and the block is taken. */
    method Enter(p: seq<Byte>, now: int)
      requires Valid() && HeaderOk(p) && !Clashes(groups, p)
      modifies this`groups, this`bufferedBytes, this`output
      ensures Valid()
      ensures groups == Process(old(groups), p, now).0 && output == old(output) + Process(old(groups), p, now).1
    {
      hide ctx.Valid, GroupOk, Total, GroupBytes, Take, Evict, Indices, Stores;
      var gid, idx, n, total, block := p[0], p[1], p[2], p[3], p[4..];
      if gid !in groups {
        var ok := EnsureCapacity(|block|, true);
        if !ok {
          assert output + [] == output;
          return;
        }
        FreshOk(p, now);
        OpenGroup(gid, Group(n, total, |block|, now, false, map[], {}));
      }
      TakeBlock(gid, idx, block);
    }

    method OpenGroup(gid: Byte, g: Group)
      requires Valid() && gid !in groups && |groups| < MAX_GROUPS && GroupOk(g) && GroupBytes(g) == 0
      modifies this`groups
      ensures Valid() && groups == old(groups)[gid := g]
    {
      hide ctx.Valid, GroupOk, Total, GroupBytes;
      TotalWith(groups, gid, g);
      Larger(groups, gid, g);
      groups := groups[gid := g];
    }
  }

  /** A stored value that is replaced twice. */
  lemma Overwritten(groups: Groups, gid: Byte, g: Group, g': Group)
    requires TableOk(groups) && gid in groups && GroupOk(g')
    ensures groups[gid := g][gid := g'] == groups[gid := g'] && TableOk(groups[gid := g'])
  {
    hide GroupOk;
  }

  lemma SameSize(groups: Groups, gid: Byte, g: Group)
    requires gid in groups
    ensures |groups[gid := g]| == |groups|
  {
    assert groups[gid := g].Keys == groups.Keys;
    assert |groups[gid := g].Keys| == |groups[gid := g]| && |groups.Keys| == |groups|;
  }

  lemma SizeFits(g: Group)
    requires GroupOk(g)
    ensures g.blockBytes <= MAX_BUFFERED
  {
  }

  lemma OnlyOldest(groups: Groups, gid: Byte)
    requires IsOldest(groups, gid)
    ensures groups != map[] && Oldest(groups) == gid
  {
  }

  /** The group with the block added, before it is marked as decoded. */
  lemma WordAdded(g: Group, idx: Byte, block: seq<Byte>, data: seq<seq<Byte>>)
    requires GroupOk(g) && !g.decoded && idx < g.totalCount && idx !in g.blocks && |block| == g.blockBytes
    requires Stores(Next(g, idx, block), data)
    ensures Stores(Added(g, idx, block), data) && |data| == g.dataCount
    ensures Added(g, idx, block).dataCount == g.dataCount && !Added(g, idx, block).decoded
    ensures Indices(Added(g, idx, block)) == Indices(g) + {idx as nat}
    ensures |Added(g, idx, block).blocks| == |g.blocks| + 1 <= g.dataCount
    ensures Next(g, idx, block) == Added(g, idx, block).(decoded := |g.blocks| + 1 >= g.dataCount)
    ensures Added(g, idx, block).blocks.Keys == g.blocks.Keys + {idx}
    ensures idx < g.dataCount ==> block == data[idx]
  {
    hide Originals, Encoded;
    AddedSane(g, idx, block);
    assert Added(g, idx, block).blocks[idx] == block;
    if idx < g.dataCount {
      OriginalIfBelow(Added(g, idx, block), data, idx);
    }
  }
}
