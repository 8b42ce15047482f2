/**
 * CliFecEncoder over the erasure code: each group of payloads becomes the packets of one code word.
 * And the buffers that both ends hand to the erasure code.
 */
module FecStream {
  import opened Bytes
  import opened Gf256Tables
  import opened Cm256
  import D = Cm256Decoder
  import opened Cauchy
  import opened FecGroups

  // ---------------------------------------------------------------- buffers for the erasure code

  /** Blocks in buffers of their own, holding the given bytes under the given indices. */
  ghost predicate Hold(blocks: seq<Block>, indices: seq<Byte>, contents: seq<seq<Byte>>, bytes: nat)
    reads blocks, set b | b in blocks :: b.Data
  {
    && |blocks| == |indices| == |contents|
    && (forall i :: 0 <= i < |blocks| ==> blocks[i].Index == indices[i] && blocks[i].Data.Length == bytes)
    && (forall i :: 0 <= i < |blocks| ==> blocks[i].Data[..] == contents[i])
    && (forall i, j :: 0 <= i < j < |blocks| ==> blocks[i] != blocks[j] && blocks[i].Data != blocks[j].Data)
  }

  lemma NoneHeld(bytes: nat)
    ensures Hold([], [], [], bytes)
  {
  }

  lemma OneMoreHeld(blocks: seq<Block>, indices: seq<Byte>, contents: seq<seq<Byte>>, bytes: nat, block: Block)
    requires Hold(blocks, indices, contents, bytes) && block.Data.Length == bytes
    requires forall b :: b in blocks ==> b != block && b.Data != block.Data
    ensures Hold(blocks + [block], indices + [block.Index], contents + [block.Data[..]], bytes)
  {
  }

  method MakeBlocks(indices: seq<Byte>, contents: seq<seq<Byte>>, bytes: nat) returns (blocks: seq<Block>)
    requires |indices| == |contents| && forall i :: 0 <= i < |contents| ==> |contents[i]| == bytes
    ensures Hold(blocks, indices, contents, bytes)
    ensures forall i :: 0 <= i < |blocks| ==> fresh(blocks[i]) && fresh(blocks[i].Data)
  {
    hide Hold;
    blocks := [];
    NoneHeld(bytes);
    assert indices[..0] == [] && contents[..0] == [];
    for k := 0 to |indices|
      invariant Hold(blocks, indices[..k], contents[..k], bytes)
      invariant forall i :: 0 <= i < |blocks| ==> fresh(blocks[i]) && fresh(blocks[i].Data)
    {
      var content := contents[k];
      var data := new Byte[bytes](i requires 0 <= i < bytes => content[i]);
      assert data[..] == content;
      var block := new Block(data, indices[k]);
      OneMoreHeld(blocks, indices[..k], contents[..k], bytes, block);
      assert indices[..k + 1] == indices[..k] + [indices[k]] && contents[..k + 1] == contents[..k] + [contents[k]];
      blocks := blocks + [block];
    }
    assert indices[..|indices|] == indices && contents[..|contents|] == contents;
  }

  // ---------------------------------------------------------------- the encoder

  /** All packets of one group. */
  ghost function GroupPackets(group: Byte, mode: FecMode, payloads: seq<seq<Byte>>, bytes: nat): (ps: seq<seq<Byte>>)
    requires 1 <= |payloads| <= GROUP_SIZE && forall i :: 0 <= i < |payloads| ==> 2 + |payloads[i]| <= bytes
    ensures |ps| == |payloads| + Recovery(mode, |payloads|)
  {
    var n, m := |payloads|, Recovery(mode, |payloads|);
    seq(n + m, i requires 0 <= i < n + m => Packet(group, i, n, n + m, Encoded(Blocks(payloads, bytes), bytes, i)))
  }

  /** The length of the longest payload. */
  ghost function Longest(payloads: seq<seq<Byte>>): (n: nat)
  {
    if payloads == [] then 0
    else
      var last := |payloads| - 1;
      var before := Longest(payloads[..last]);
      if |payloads[last]| > before then |payloads[last]| else before
  }

  lemma LongestNext(payloads: seq<seq<Byte>>, p: seq<Byte>)
    ensures Longest(payloads + [p]) == if |p| > Longest(payloads) then |p| else Longest(payloads)
  {
    assert (payloads + [p])[..|payloads|] == payloads;
  }

  lemma {:induction false} LongestBounds(payloads: seq<seq<Byte>>)
    ensures forall i :: 0 <= i < |payloads| ==> |payloads[i]| <= Longest(payloads)
    ensures payloads != [] ==> exists i :: 0 <= i < |payloads| && |payloads[i]| == Longest(payloads)
  {
    if payloads != [] {
      var last := |payloads| - 1;
      LongestBounds(payloads[..last]);
      assert Longest(payloads) == |payloads[last]| || (last > 0 && Longest(payloads) == Longest(payloads[..last]));
      if Longest(payloads) != |payloads[last]| {
        var i :| 0 <= i < last && |payloads[..last][i]| == Longest(payloads[..last]);
        assert |payloads[i]| == Longest(payloads);
      }
    }
  }

  /** The packets of a group, byte by byte: group, index, numbers of data and of all blocks, then the block;
   * the block of a payload is its length, highest byte first, the payload, and zeros. */
  lemma GroupLayout(group: Byte, mode: FecMode, payloads: seq<seq<Byte>>, bytes: nat, i: nat)
    requires 1 <= |payloads| <= GROUP_SIZE && forall i :: 0 <= i < |payloads| ==> 2 + |payloads[i]| <= bytes
    requires i < |payloads| + Recovery(mode, |payloads|)
    ensures var p := GroupPackets(group, mode, payloads, bytes)[i];
      && |p| == 4 + bytes && p[..4] == [group, i, |payloads|, |payloads| + Recovery(mode, |payloads|)]
      && (i < |payloads| && |payloads[i]| < 0x1_0000 ==>
            p[4..] == [|payloads[i]| / 256, |payloads[i]| % 256] + payloads[i] + seq(bytes - 2 - |payloads[i]|, k => 0))
  {
    hide Packet, Padded, Encoded, Blocks;
    var n, m := |payloads|, Recovery(mode, |payloads|);
    assert n + m <= 3 * n;
    var block := Encoded(Blocks(payloads, bytes), bytes, i);
    PacketLayout(group, i, n, n + m, block);
    EncodedSize(Blocks(payloads, bytes), bytes, i);
    if i < n && |payloads[i]| < 0x1_0000 {
      PaddedLayout(payloads[i], bytes);
    }
  }

  lemma PacketLayout(group: Byte, index: Byte, dataCount: Byte, totalCount: Byte, block: seq<Byte>)
    ensures var p := Packet(group, index, dataCount, totalCount, block);
      |p| == 4 + |block| && p[..4] == [group, index, dataCount, totalCount] && p[4..] == block
  {
  }

  lemma PaddedLayout(p: seq<Byte>, bytes: nat)
    requires 2 + |p| <= bytes && |p| < 0x1_0000
    ensures Padded(p, bytes) == [|p| / 256, |p| % 256] + p + seq(bytes - 2 - |p|, k => 0)
  {
  }

  lemma EncodedSize(data: seq<seq<Byte>>, bytes: nat, i: nat)
    requires Rectangular(data, bytes) && 0 < |data| < 256 && i < 256
    ensures |Encoded(data, bytes, i)| == bytes && (i < |data| ==> Encoded(data, bytes, i) == data[i])
  {
    hide SumRow;
  }

  class FecEncoder {
    const ctx: Gf256Ctx
    const mode: FecMode
    var groupId: Byte
    var maxBlockSize: nat
    var buffer: seq<seq<Byte>>
    /** What the output callback has been given. */
    var output: seq<seq<Byte>>

    ghost predicate Valid()
      reads this, ctx.mulTable, ctx.divTable, ctx.invTable, ctx.loTable, ctx.hiTable
    {
      ctx.Valid() && |buffer| < GROUP_SIZE && maxBlockSize == Longest(buffer)
    }

    constructor (ctx: Gf256Ctx, mode: FecMode)
      requires ctx.Valid()
      ensures Valid() && buffer == [] && output == [] && groupId == 0 && this.mode == mode && this.ctx == ctx
    {
      this.ctx, this.mode := ctx, mode;
      groupId, maxBlockSize, buffer, output := 0, 0, [], [];
    }

    method AddPacket(payload: seq<Byte>)
      requires Valid()
      modifies this
      ensures Valid()
      ensures |old(buffer)| < GROUP_SIZE - 1 ==> buffer == old(buffer) + [payload] && output == old(output) && groupId == old(groupId)
      ensures |old(buffer)| == GROUP_SIZE - 1 ==> buffer == [] && groupId == NextId(old(groupId))
      ensures |old(buffer)| == GROUP_SIZE - 1 ==> Sends(old(output), output, old(groupId), old(buffer) + [payload])
    {
      hide ctx.Valid;
      LongestNext(buffer, payload);
      buffer := buffer + [payload];
      if |payload| > maxBlockSize {
        maxBlockSize := |payload|;
      }
      if |buffer| >= GROUP_SIZE {
        Flush();
      }
    }

    /** The output has grown by exactly the packets of one group, whose blocks hold a length of two bytes and
     * the longest payload. */
    ghost predicate Sends(before: seq<seq<Byte>>, after: seq<seq<Byte>>, group: Byte, payloads: seq<seq<Byte>>)
    {
      LongestBounds(payloads);
      1 <= |payloads| <= GROUP_SIZE && after == before + GroupPackets(group, mode, payloads, 2 + Longest(payloads))
    }

    method Flush()
      requires ctx.Valid() && |buffer| <= GROUP_SIZE && maxBlockSize == Longest(buffer)
      modifies this
      ensures Valid() && buffer == []
      ensures old(buffer) == [] ==> output == old(output) && groupId == old(groupId)
      ensures old(buffer) != [] ==> Sends(old(output), output, old(groupId), old(buffer)) && groupId == NextId(old(groupId))
    {
      hide ctx.Valid, Encoded, Hold, Padded, GroupPackets;
      LongestBounds(buffer);
      if buffer == [] {
        return;
      }
      var n := |buffer|;
      var m := ParityCount(mode, n);
      if m <= 0 {
        m := 1;
      }
      var blockBytes := 2 + maxBlockSize;
      var padded := Pad(buffer, blockBytes);
      var recovery := EncodeGroup(padded, m, blockBytes);
      var gid := groupId;
      groupId := if groupId == 255 then 0 else groupId + 1;
      GroupIs(gid, mode, buffer, blockBytes, padded, recovery);
      SendGroup(gid, padded, recovery);
      assert Sends(old(output), output, old(groupId), old(buffer));
      assert Longest([]) == 0;
      buffer := [];
      maxBlockSize := 0;
    }

    method Pad(payloads: seq<seq<Byte>>, bytes: nat) returns (padded: seq<seq<Byte>>)
      requires forall i :: 0 <= i < |payloads| ==> 2 + |payloads[i]| <= bytes
      ensures padded == Blocks(payloads, bytes)
    {
      hide Padded;
      padded := [];
      for i := 0 to |payloads|
        invariant |padded| == i && forall k :: 0 <= k < i ==> padded[k] == Padded(payloads[k], bytes)
      {
        padded := padded + [Padded(payloads[i], bytes)];
      }
    }

    /** The two loops that hand the packets of a group to the output. */
    method SendGroup(gid: Byte, padded: seq<seq<Byte>>, recovery: seq<seq<Byte>>)
      requires |padded| + |recovery| < 256
      modifies this`output
      ensures output == old(output) + Framed(gid, padded, recovery)
    {
      hide Packet;
      var n, m := |padded|, |recovery|;
      ghost var start, ps := output, Framed(gid, padded, recovery);
      for i := 0 to n
        invariant output == start + ps[..i]
      {
        output := output + [Packet(gid, i, n, n + m, padded[i])];
        assert ps[..i + 1] == ps[..i] + [ps[i]];
      }
      for i := 0 to m
        invariant output == start + ps[..n + i]
      {
        output := output + [Packet(gid, n + i, n, n + m, recovery[i])];
        assert ps[..n + i + 1] == ps[..n + i] + [ps[n + i]];
      }
      assert ps[..n + m] == ps;
    }

    /** The calls into the erasure code: the recovery blocks of a group. */
    method EncodeGroup(data: seq<seq<Byte>>, m: nat, bytes: nat) returns (recovery: seq<seq<Byte>>)
      requires ctx.Valid() && 1 <= |data| <= GROUP_SIZE && 0 < m <= 2 * |data| && 0 < bytes
      requires forall i :: 0 <= i < |data| ==> |data[i]| == bytes
      ensures |recovery| == m && forall i: nat :: i < m ==> recovery[i] == Encoded(data, bytes, |data| + i)
    {
      hide ctx.Valid, Encoded, Slot, Hold, Separate;
      var n := |data|;
      var indices := seq<Byte>(n, i requires 0 <= i < n => i);
      var originals := MakeBlocks(indices, data, bytes);
      var recoveryData := new Byte[m * bytes](i => 0);
      var params := Params(n, m, bytes);
      var encoder := new Encoder(ctx);
      HeldSeparate(ctx, originals, indices, data, bytes);
      var result := encoder.Encode(params, originals, recoveryData, data);
      ghost var written := recoveryData[..];
      recovery := [];
      for i := 0 to m
        invariant |recovery| == i && forall k: nat :: k < i ==> recovery[k] == Encoded(data, bytes, n + k)
        invariant recoveryData[..] == written
      {
        SlotFits(i, m, bytes);
        SlotRead(written, i, bytes);
        assert Slot(written, i, bytes) == Encoded(data, bytes, n + i);
        recovery := recovery + [recoveryData[i * bytes..i * bytes + bytes]];
      }
    }
  }

  lemma SlotRead(s: seq<Byte>, m: nat, bytes: nat)
    requires m * bytes + bytes <= |s|
    ensures Slot(s, m, bytes) == s[m * bytes..m * bytes + bytes]
  {
  }

  lemma HeldSeparate(ctx: Gf256Ctx, blocks: seq<Block>, indices: seq<Byte>, contents: seq<seq<Byte>>, bytes: nat)
    requires Hold(blocks, indices, contents, bytes) && forall i :: 0 <= i < |blocks| ==> blocks[i].Data != ctx.invTable
    ensures Separate(ctx, blocks, bytes) && |blocks| == |contents|
    ensures forall i :: 0 <= i < |blocks| ==> bytes <= blocks[i].Data.Length && blocks[i].Data[..bytes] == contents[i]
  {
  }

  function NextId(g: Byte): Byte
  {
    if g == 255 then 0 else g + 1
  }

  /** Original blocks, then recovery blocks, each behind its header. */
  ghost function Framed(gid: Byte, padded: seq<seq<Byte>>, recovery: seq<seq<Byte>>): (ps: seq<seq<Byte>>)
    requires |padded| + |recovery| < 256
    ensures |ps| == |padded| + |recovery|
  {
    var n, m := |padded|, |recovery|;
    seq(n + m, i requires 0 <= i < n + m => Packet(gid, i, n, n + m, if i < n then padded[i] else recovery[i - n]))
  }

  lemma GroupIs(gid: Byte, mode: FecMode, payloads: seq<seq<Byte>>, bytes: nat, padded: seq<seq<Byte>>, recovery: seq<seq<Byte>>)
    requires 1 <= |payloads| <= GROUP_SIZE && forall i :: 0 <= i < |payloads| ==> 2 + |payloads[i]| <= bytes
    requires padded == Blocks(payloads, bytes) && |recovery| == Recovery(mode, |payloads|)
    requires forall i: nat :: i < |recovery| ==> recovery[i] == Encoded(padded, bytes, |padded| + i)
    ensures |padded| + |recovery| < 256 && Framed(gid, padded, recovery) == GroupPackets(gid, mode, payloads, bytes)
  {
    hide Padded, SumRow, Packet;
    var ps := GroupPackets(gid, mode, payloads, bytes);
    forall i | 0 <= i < |ps|
      ensures (if i < |padded| then padded[i] else recovery[i - |padded|]) == Encoded(padded, bytes, i)
    {
      if i >= |padded| {
        assert recovery[i - |padded|] == Encoded(padded, bytes, |padded| + (i - |padded|));
      }
    }
  }
}
