/**
 * The groups CliFecDecoder stores, as values: blocks of any origin within a byte budget, what one
 * packet changes and what it makes the decoder emit. Blocks of different senders may meet in one
 * group; by module CodeWords they still belong to one code word, so decoding cannot fail.
 */
module FecTable {
  import opened Bytes
  import opened Collections
  import opened Cm256
  import opened Cauchy
  import opened FecGroups
  import W = CodeWords

  const MAX_BUFFERED: nat := 256 * 1024
  const MAX_GROUPS: nat := 32
  const GROUP_TIMEOUT_MS: int := 500

  datatype Group = Group(dataCount: Byte, totalCount: Byte, blockBytes: nat, createTime: int, decoded: bool,
    blocks: map<Byte, seq<Byte>>, emittedOriginals: set<Byte>)

  type Groups = map<Byte, Group>

  // ---------------------------------------------------------------- one group

  function Originals(s: set<Byte>, n: Byte): set<Byte>
  {
    set i | i in s && i < n
  }

  /** The header was acceptable, all blocks have the group's size, the stored originals were emitted. */
  ghost predicate Sane(g: Group)
  {
    && 1 <= g.dataCount <= 10 && g.dataCount <= g.totalCount <= 3 * (g.dataCount as int) && 0 < g.blockBytes <= MAX_BUFFERED
    && (forall i :: i in g.blocks ==> i < g.totalCount && |g.blocks[i]| == g.blockBytes)
    && g.emittedOriginals == Originals(g.blocks.Keys, g.dataCount)
  }

  /** No more blocks are stored than decoding needs, and a group with that many is decoded. */
  ghost predicate GroupOk(g: Group)
  {
    Sane(g) && |g.blocks| <= g.dataCount && (g.decoded <==> |g.blocks| == g.dataCount)
  }

  ghost predicate TableOk(groups: Groups)
  {
    forall k :: k in groups ==> GroupOk(groups[k])
  }

  /** The stored blocks are blocks of the code word with originals data. */
  ghost predicate Stores(g: Group, data: seq<seq<Byte>>)
  {
    && Sane(g) && |data| == g.dataCount && Rectangular(data, g.blockBytes)
    && forall i :: i in g.blocks ==> g.blocks[i] == Encoded(data, g.blockBytes, i)
  }

  /** A code word the stored blocks belong to. */
  ghost function Word(g: Group): (data: seq<seq<Byte>>)
    requires GroupOk(g)
    ensures Stores(g, data)
  {
    hide Encoded;
    assert exists d :: Stores(g, d) by {
      var d := W.WordOf(g.blocks, g.dataCount, g.blockBytes);
      assert Stores(g, d);
    }
    var data :| Stores(g, data);
    data
  }

  /** A complete group has one code word: the sender's, if all its blocks come from one sender. */
  lemma WordOfSender(g: Group, data: seq<seq<Byte>>)
    requires GroupOk(g) && g.decoded && Stores(g, data)
    ensures Word(g) == data
  {
    hide Encoded;
    W.WordOnce(g.blocks, g.dataCount, g.blockBytes, Word(g), data);
  }

  ghost function Indices(g: Group): (s: set<nat>)
    ensures forall i :: i in s <==> i in g.blocks
    ensures |s| == |g.blocks|
  {
    var s: set<nat> := g.blocks.Keys;
    assert |g.blocks.Keys| == |g.blocks|;
    s
  }

  ghost function ProgressOf(g: Group): Progress
  {
    Progress(Indices(g), g.decoded)
  }

  /** The difference of two 32-bit millisecond clocks. */
  function Age(now: int, created: int): (age: nat)
  {
    (now - created) % 0x1_0000_0000
  }

  /** The age is the time that has passed since the creation, if that is less than 2^32 milliseconds, also
   * when the clock has wrapped in between. */
  lemma AgeElapsed(created: int, passed: nat, wraps: int)
    requires passed < 0x1_0000_0000
    ensures Age(created + passed - wraps * 0x1_0000_0000, created) == passed
  {
    var d := passed - wraps * 0x1_0000_0000;
    var q, r := d / 0x1_0000_0000, d % 0x1_0000_0000;
    assert d == q * 0x1_0000_0000 + r;
    assert (q + wraps) * 0x1_0000_0000 == passed - r;
  }

  // ---------------------------------------------------------------- the byte budget

  /** All blocks of a group have the same size. */
  function GroupBytes(g: Group): nat
  {
    |g.blocks| * g.blockBytes
  }

  ghost function Total(groups: Groups): (n: nat)
  {
    Sum(groups, GroupBytes)
  }

  /** The group that comes first by numeric creation time and then by id. */
  ghost predicate IsOldest(groups: Groups, gid: Byte)
  {
    && gid in groups
    && forall k :: k in groups ==>
         groups[gid].createTime < groups[k].createTime || (groups[gid].createTime == groups[k].createTime && gid <= k)
  }

  lemma {:induction false} OldestExists(groups: Groups) returns (gid: Byte)
    requires groups != map[]
    ensures IsOldest(groups, gid)
    decreases |groups|
  {
    gid :| gid in groups;
    if exists k :: k in groups && k != gid {
      var k :| k in groups && k != gid;
      Smaller(groups, gid);
      assert forall x :: x in groups && x != gid ==> x in groups - {gid};
      var other := OldestExists(groups - {gid});
      if groups[other].createTime < groups[gid].createTime
         || (groups[other].createTime == groups[gid].createTime && other <= gid) {
        gid := other;
      }
    }
  }

  ghost function Oldest(groups: Groups): (gid: Byte)
    requires groups != map[]
    ensures IsOldest(groups, gid)
  {
    assert exists k :: IsOldest(groups, k) by {
      var k := OldestExists(groups);
    }
    var gid :| IsOldest(groups, gid);
    gid
  }

  /** The incoming block does not fit, or the new group does not. */
  ghost predicate Over(groups: Groups, incoming: nat, newGroup: bool)
  {
    (newGroup && |groups| >= MAX_GROUPS) || Total(groups) + incoming > MAX_BUFFERED
  }

  /** ensureCapacity: the oldest group goes until there is room. */
  ghost function Evict(groups: Groups, incoming: nat, newGroup: bool): (left: Groups)
    ensures left.Keys <= groups.Keys && forall k :: k in left ==> left[k] == groups[k]
    decreases |groups|
  {
    if groups == map[] || !Over(groups, incoming, newGroup) then groups
    else
      Smaller(groups, Oldest(groups));
      Evict(groups - {Oldest(groups)}, incoming, newGroup)
  }

  /** Eviction makes room for every block that fits the budget alone. */
  lemma {:induction false} EvictMakesRoom(groups: Groups, incoming: nat, newGroup: bool)
    requires incoming <= 262144
    ensures var left := Evict(groups, incoming, newGroup); (newGroup ==> |left| < 32) && Total(left) + incoming <= 262144
    decreases |groups|
  {
    hide Total;
    if groups == map[] {
      NoBytes(groups);
    } else if Over(groups, incoming, newGroup) {
      Smaller(groups, Oldest(groups));
      EvictMakesRoom(groups - {Oldest(groups)}, incoming, newGroup);
    }
  }

  /** What goes is older than what stays. */
  lemma {:induction false} EvictsOldest(groups: Groups, incoming: nat, newGroup: bool, k: Byte, gone: Byte)
    requires k in Evict(groups, incoming, newGroup) && gone in groups && gone !in Evict(groups, incoming, newGroup)
    ensures groups[gone].createTime <= groups[k].createTime
    decreases |groups|
  {
    hide Over;
    var oldest := Oldest(groups);
    if gone != oldest {
      Smaller(groups, oldest);
      EvictsOldest(groups - {oldest}, incoming, newGroup, k, gone);
    }
  }

  /** The last group to go had to: with it the block would not have fitted. */
  lemma {:induction false} EvictsOnlyIfNeeded(groups: Groups, incoming: nat, newGroup: bool) returns (last: Byte)
    requires Evict(groups, incoming, newGroup) != groups
    ensures var left := Evict(groups, incoming, newGroup);
      && last in groups && last !in left
      && ((newGroup && |left| + 1 >= 32) || Total(left[last := groups[last]]) + incoming > 262144)
    decreases |groups|
  {
    hide Total;
    var oldest := Oldest(groups);
    var rest := groups - {oldest};
    Smaller(groups, oldest);
    if Evict(rest, incoming, newGroup) == rest {
      last := oldest;
      assert rest[oldest := groups[oldest]] == groups;
    } else {
      last := EvictsOnlyIfNeeded(rest, incoming, newGroup);
    }
  }

  lemma NoBytes(groups: Groups)
    requires groups == map[]
    ensures Total(groups) == 0 && |groups| == 0
  {
  }

  lemma TotalWithout(groups: Groups, k: Byte)
    requires k in groups
    ensures Total(groups) == GroupBytes(groups[k]) + Total(groups - {k})
  {
    SumWithout(groups, GroupBytes, k);
  }

  lemma TotalWith(groups: Groups, k: Byte, g: Group)
    ensures k in groups ==> Total(groups[k := g]) == Total(groups) - GroupBytes(groups[k]) + GroupBytes(g)
    ensures k !in groups ==> Total(groups[k := g]) == Total(groups) + GroupBytes(g)
  {
    hide GroupBytes, Sum;
    SumWith(groups, GroupBytes, k, g);
  }

  // ---------------------------------------------------------------- taking a block

  function Added(g: Group, idx: Byte, block: seq<Byte>): Group
  {
    g.(blocks := g.blocks[idx := block], emittedOriginals := g.emittedOriginals + (if idx < g.dataCount then {idx} else {}))
  }

  /** The group with one more block; it is decoded when that completes it. */
  function Next(g: Group, idx: Byte, block: seq<Byte>): Group
  {
    var n := Added(g, idx, block);
    n.(decoded := |n.blocks| >= n.dataCount)
  }

  lemma AddedSane(g: Group, idx: Byte, block: seq<Byte>)
    requires Sane(g) && idx < g.totalCount && idx !in g.blocks && |block| == g.blockBytes
    ensures Sane(Added(g, idx, block)) && Indices(Added(g, idx, block)) == Indices(g) + {idx as nat}
    ensures |Added(g, idx, block).blocks| == |g.blocks| + 1
  {
    hide Originals;
    Larger(g.blocks, idx, block);
    OriginalsWith(g.blocks.Keys, idx, g.dataCount);
  }

  lemma AddedBytes(g: Group, idx: Byte, block: seq<Byte>)
    requires idx !in g.blocks && |block| == g.blockBytes
    ensures GroupBytes(Next(g, idx, block)) == GroupBytes(g) + |block|
  {
    hide Originals;
    Larger(g.blocks, idx, block);
    TimesNext(|g.blocks|, g.blockBytes);
  }

  lemma TimesNext(n: nat, bytes: nat)
    ensures (n + 1) * bytes == n * bytes + bytes
  {
  }

  lemma OriginalsWith(s: set<Byte>, idx: Byte, n: Byte)
    ensures Originals(s + {idx}, n) == Originals(s, n) + (if idx < n then {idx} else {})
  {
  }

  lemma NextOk(g: Group, idx: Byte, block: seq<Byte>)
    requires GroupOk(g) && !g.decoded && idx < g.totalCount && idx !in g.blocks && |block| == g.blockBytes
    ensures GroupOk(Next(g, idx, block)) && Indices(Next(g, idx, block)) == Indices(g) + {idx as nat}
  {
    hide Originals;
    AddedSane(g, idx, block);
  }

  /** Adding a block of the code word keeps it. */
  lemma NextStores(g: Group, idx: Byte, block: seq<Byte>, data: seq<seq<Byte>>)
    requires GroupOk(g) && !g.decoded && idx < g.totalCount && idx !in g.blocks && |block| == g.blockBytes
    ensures Stores(Next(g, idx, block), data) <==> Stores(g, data) && block == Encoded(data, g.blockBytes, idx)
  {
    hide Encoded, Originals;
    AddedSane(g, idx, block);
    var n := Next(g, idx, block);
    assert n.blocks[idx] == block;
    assert forall i :: i in g.blocks ==> n.blocks[i] == g.blocks[i];
  }

  /** The payloads emitted because block idx of the group with these originals arrives. */
  ghost function Emission(data: seq<seq<Byte>>, s: Progress, idx: nat): (out: seq<seq<Byte>>)
  {
    ArriveInside(|data|, s, idx);
    PayloadsOf(data, Arrive(|data|, s, idx).1)
  }

  /** What has been seen of a group; nothing if it is not stored. */
  ghost function Seen(groups: Groups, gid: Byte): Progress
  {
    if gid in groups then ProgressOf(groups[gid]) else Start()
  }

  ghost predicate Clashes(groups: Groups, p: seq<Byte>)
    requires HeaderOk(p)
  {
    p[0] in groups && (groups[p[0]].dataCount != p[2] || groups[p[0]].totalCount != p[3] || groups[p[0]].blockBytes != |p| - 4)
  }

  /** The group a packet opens. */
  function Fresh(p: seq<Byte>, now: int): Group
    requires HeaderOk(p)
  {
    Group(p[2], p[3], |p| - 4, now, false, map[], {})
  }

  /** The part of addPacket that works on a stored group. */
  ghost function Take(groups: Groups, gid: Byte, idx: Byte, block: seq<Byte>): (r: (Groups, seq<seq<Byte>>))
    requires TableOk(groups) && gid in groups && idx < groups[gid].totalCount && |block| == groups[gid].blockBytes
  {
    if groups[gid].decoded || idx in groups[gid].blocks then (groups, [])
    else
      var left := Evict(groups, |block|, false);
      if gid !in left then (left, [])
      else
        NextOk(groups[gid], idx, block);
        (left[gid := Next(groups[gid], idx, block)], Emission(Word(Next(groups[gid], idx, block)), ProgressOf(groups[gid]), idx))
  }

  /** addPacket: the groups afterwards and what is emitted, for any bytes. */
  ghost function Process(groups: Groups, p: seq<Byte>, now: int): (r: (Groups, seq<seq<Byte>>))
    requires TableOk(groups)
  {
    if !HeaderOk(p) then (groups, [])
    else if Clashes(groups, p) then (groups - {p[0]}, [])
    else if p[0] in groups then Take(groups, p[0], p[1], p[4..])
    else if |p| - 4 > MAX_BUFFERED then (groups, [])
    else
      FreshOk(p, now);
      Take(Evict(groups, |p| - 4, true)[p[0] := Fresh(p, now)], p[0], p[1], p[4..])
  }

  /** A packet that is malformed, or brings a block that is not needed, changes nothing; one that contradicts
   * its group drops the group. */
  lemma ProcessMeans(groups: Groups, p: seq<Byte>, now: int)
    requires TableOk(groups)
    ensures !(|p| > 4 && 1 <= p[2] <= 10 && p[2] <= p[3] <= 3 * (p[2] as int) && p[1] < p[3]) ==> Process(groups, p, now) == (groups, [])
    ensures |p| > 4 && 1 <= p[2] <= 10 && p[2] <= p[3] <= 3 * (p[2] as int) && p[1] < p[3] && p[0] in groups ==>
      var g := groups[p[0]];
      && (g.dataCount != p[2] || g.totalCount != p[3] || g.blockBytes != |p| - 4 ==> Process(groups, p, now) == (groups - {p[0]}, []))
      && (g.dataCount == p[2] && g.totalCount == p[3] && g.blockBytes == |p| - 4 && (|g.blocks| == g.dataCount || p[1] in g.blocks) ==>
            Process(groups, p, now) == (groups, []))
  {
    hide Evict, Emission, Word, Originals;
  }

  /** A packet of a new group, with room for it, opens the group with its block, at its time. */
  lemma ProcessOpens(groups: Groups, p: seq<Byte>, now: int)
    requires TableOk(groups) && HeaderOk(p) && p[0] !in groups && |groups| < 32 && Total(groups) + |p| - 4 <= 262144
    ensures Process(groups, p, now).0 == groups[p[0] :=
      Group(p[2], p[3], |p| - 4, now, p[2] == 1, map[p[1] := p[4..]], if p[1] < p[2] then {p[1]} else {})]
  {
    hide Total, Take, Evict, GroupOk;
    FreshOk(p, now);
    NothingEvicted(groups, p, now);
    TakesFirst(groups[p[0] := Fresh(p, now)], p, now);
  }

  /** The first block of a group just opened. */
  lemma TakesFirst(groups: Groups, p: seq<Byte>, now: int)
    requires TableOk(groups) && HeaderOk(p) && p[0] in groups && groups[p[0]] == Fresh(p, now)
    requires Evict(groups, |p| - 4, false) == groups
    ensures Take(groups, p[0], p[1], p[4..]).0 == groups[p[0] :=
      Group(p[2], p[3], |p| - 4, now, p[2] == 1, map[p[1] := p[4..]], if p[1] < p[2] then {p[1]} else {})]
  {
    hide Emission, Word, Originals, GroupOk, Evict;
    assert map[][p[1] := p[4..]] == map[p[1] := p[4..]];
    assert {} + (if p[1] < p[2] then {p[1]} else {}) == if p[1] < p[2] then {p[1]} else {};
  }

  lemma NothingEvicted(groups: Groups, p: seq<Byte>, now: int)
    requires HeaderOk(p) && p[0] !in groups && |groups| < 32 && Total(groups) + |p| - 4 <= 262144
    ensures Evict(groups, |p| - 4, true) == groups
    ensures Evict(groups[p[0] := Fresh(p, now)], |p| - 4, false) == groups[p[0] := Fresh(p, now)]
  {
    hide Total;
    TotalWith(groups, p[0], Fresh(p, now));
    assert 0 * (|p| - 4) == 0;
  }

  /** cleanup */
  function Cleaned(groups: Groups, now: int): (left: Groups)
  {
    map k | k in groups && Age(now, groups[k].createTime) <= GROUP_TIMEOUT_MS :: groups[k]
  }

  lemma CleanedIs(groups: Groups, left: Groups, now: int)
    requires forall k :: k in left ==> k in groups && left[k] == groups[k] && Age(now, groups[k].createTime) <= GROUP_TIMEOUT_MS
    requires forall k :: k in groups && k !in left ==> Age(now, groups[k].createTime) > GROUP_TIMEOUT_MS
    ensures left == Cleaned(groups, now)
  {
    hide Age;
  }

  lemma CleanedMeans(groups: Groups, now: int)
    ensures forall k :: k in Cleaned(groups, now) <==> k in groups && (now - groups[k].createTime) % 0x1_0000_0000 <= 500
    ensures forall k :: k in Cleaned(groups, now) ==> Cleaned(groups, now)[k] == groups[k]
  {
  }

  lemma FreshOk(p: seq<Byte>, now: int)
    requires HeaderOk(p) && |p| - 4 <= MAX_BUFFERED
    ensures GroupOk(Fresh(p, now)) && GroupBytes(Fresh(p, now)) == 0 && Indices(Fresh(p, now)) == {}
    ensures forall data :: Stores(Fresh(p, now), data) <==> |data| == p[2] && Rectangular(data, |p| - 4)
  {
    hide Encoded;
    assert 0 * (|p| - 4) == 0;
  }

  /** No packet breaks the groups. */
  lemma ProcessKeeps(groups: Groups, p: seq<Byte>, now: int)
    requires TableOk(groups)
    ensures TableOk(Process(groups, p, now).0)
  {
    hide GroupOk, Emission, Word, Evict;
    if HeaderOk(p) && !Clashes(groups, p) {
      if p[0] in groups {
        TakeKeeps(groups, p[0], p[1], p[4..]);
      } else if |p| - 4 <= MAX_BUFFERED {
        FreshOk(p, now);
        TakeKeeps(Evict(groups, |p| - 4, true)[p[0] := Fresh(p, now)], p[0], p[1], p[4..]);
      }
    }
  }

  lemma TakeKeeps(groups: Groups, gid: Byte, idx: Byte, block: seq<Byte>)
    requires TableOk(groups) && gid in groups && idx < groups[gid].totalCount && |block| == groups[gid].blockBytes
    ensures TableOk(Take(groups, gid, idx, block).0)
  {
    hide GroupOk, Emission, Word, Evict;
    if !groups[gid].decoded && idx !in groups[gid].blocks {
      NextOk(groups[gid], idx, block);
    }
  }

  /** What is emitted does not depend on which code word the stored blocks are read as. */
  lemma EmissionOfSender(g: Group, idx: Byte, block: seq<Byte>, data: seq<seq<Byte>>)
    requires GroupOk(g) && !g.decoded && idx < g.totalCount && idx !in g.blocks && |block| == g.blockBytes
    requires Stores(Next(g, idx, block), data)
    ensures GroupOk(Next(g, idx, block))
    ensures Emission(Word(Next(g, idx, block)), ProgressOf(g), idx) == Emission(data, ProgressOf(g), idx)
  {
    hide Originals, Encoded, Word, PayloadsOf;
    NextOk(g, idx, block);
    var n := Next(g, idx, block);
    if n.decoded {
      WordOfSender(n, data);
    } else {
      OneEmission(Word(n), g, idx);
      OneEmission(data, g, idx);
      SameOriginal(n, idx, Word(n), data);
    }
  }

  lemma SameOriginal(g: Group, idx: Byte, data: seq<seq<Byte>>, data': seq<seq<Byte>>)
    requires Stores(g, data) && Stores(g, data') && idx in g.blocks
    ensures forall s :: PayloadsOf(data, AtOnce(g.dataCount, s, idx)) == PayloadsOf(data', AtOnce(g.dataCount, s, idx))
  {
    hide PayloadOf;
    forall s
      ensures PayloadsOf(data, AtOnce(g.dataCount, s, idx)) == PayloadsOf(data', AtOnce(g.dataCount, s, idx))
    {
      if idx < g.dataCount {
        PayloadsOne(data, idx);
        PayloadsOne(data', idx);
      }
    }
  }

  lemma OneEmission(data: seq<seq<Byte>>, g: Group, idx: Byte)
    requires |data| == g.dataCount && !g.decoded && |Indices(g) + {idx as nat}| < g.dataCount
    ensures Arrive(|data|, ProgressOf(g), idx) ==
      (Progress(Indices(g) + {idx as nat}, false), AtOnce(g.dataCount, Progress(Indices(g), false), idx))
    ensures Emission(data, ProgressOf(g), idx) == PayloadsOf(data, AtOnce(g.dataCount, Progress(Indices(g), false), idx))
  {
    hide PayloadsOf, AtOnce;
  }

  lemma TwoEmissions(data: seq<seq<Byte>>, g: Group, idx: Byte, out: seq<seq<Byte>>)
    requires |data| == g.dataCount && !g.decoded && |Indices(g) + {idx as nat}| >= g.dataCount
    ensures Arrive(|data|, ProgressOf(g), idx).0 == Progress(Indices(g) + {idx as nat}, true)
    ensures var at := AtOnce(g.dataCount, Progress(Indices(g), false), idx);
      out + Emission(data, ProgressOf(g), idx)
        == (out + PayloadsOf(data, at)) + PayloadsOf(data, Missing(g.dataCount, Indices(g) + {idx as nat}))
  {
    hide PayloadsOf, Missing;
    var at := AtOnce(g.dataCount, Progress(Indices(g), false), idx);
    var rest := Missing(g.dataCount, Indices(g) + {idx as nat});
    PayloadsAppend(data, at, rest);
    hide AtOnce;
    assert Arrive(|data|, ProgressOf(g), idx).1 == at + rest;
    Associates(out, PayloadsOf(data, at), PayloadsOf(data, rest));
  }
}
