/**
 * CliRawUdpTunnel without error correction: packets cut into numbered fragments, fragments stored
 * per message within a byte budget and a message budget, complete messages delivered.
 */
module RawUdpTunnel {
  import opened Bytes
  import opened Collections
  import opened RawUdpFragments

  const MAX_REASSEMBLY_BYTES: nat := 128 * 1024
  const MAX_ACTIVE_MESSAGES: nat := 64
  const FRAG_TIMEOUT_MS: int := 2000
  const KEEPALIVE_MARKER: Byte := 0
  const LATENCY_PING: Byte := 1
  const LATENCY_PONG: Byte := 2

  datatype Entry = Entry(totalLen: U16, total: Byte, receivedCount: nat, createTime: int, fragments: Fragments)

  type Table = map<U16, Entry>

  // ---------------------------------------------------------------- what is stored

  /** An incomplete message of at least two fragments, each of the length its place demands. */
  ghost predicate EntryOk(e: Entry, mtu: nat, size: nat)
    requires size > 0
  {
    && 1 < e.total && 0 < e.totalLen <= mtu && e.total == Count(e.totalLen, size)
    && e.receivedCount == |e.fragments| < e.total
    && forall k :: k in e.fragments ==> k < e.total && |e.fragments[k]| == Expected(e.totalLen, size, e.total, k)
  }

  ghost predicate TableOk(table: Table, mtu: nat, size: nat)
    requires size > 0
  {
    forall id :: id in table ==> EntryOk(table[id], mtu, size)
  }

  ghost function EntryBytes(e: Entry): nat
  {
    StoredBytes(e.fragments)
  }

  ghost function Total(table: Table): (n: nat)
  {
    Sum(table, EntryBytes)
  }

  lemma TotalWithout(table: Table, k: U16)
    requires k in table
    ensures Total(table) == StoredBytes(table[k].fragments) + Total(table - {k})
  {
    hide StoredBytes;
    SumWithout(table, EntryBytes, k);
  }

  lemma TotalWith(table: Table, k: U16, e: Entry)
    ensures Total(table[k := e]) == StoredBytes(e.fragments) + Total(table - {k})
    ensures k in table ==> Total(table) == StoredBytes(table[k].fragments) + Total(table - {k})
    ensures k !in table ==> Total(table) == Total(table - {k})
  {
    hide StoredBytes, Total;
    TotalWithout(table[k := e], k);
    assert table[k := e] - {k} == table - {k};
    if k in table {
      TotalWithout(table, k);
    } else {
      assert table - {k} == table;
    }
  }

  lemma NoBytes(table: Table)
    requires table == map[]
    ensures Total(table) == 0 && |table| == 0
  {
  }

  // ---------------------------------------------------------------- one fragment

  /** The checks of processFrag before anything is stored. */
  predicate WellFormed(f: Fragment, mtu: nat, size: nat)
    requires size > 0
  {
    && f.data != [] && f.total != 0 && f.index < f.total && 0 < f.totalLen <= mtu
    && Count(f.totalLen, size) == f.total && |f.data| == Expected(f.totalLen, size, f.total, f.index)
  }

  /** The keepalive byte and the two latency probes, which never reach the application. */
  predicate Control(p: seq<Byte>)
  {
    (|p| == 1 && p[0] == KEEPALIVE_MARKER) || (|p| == 5 && (p[0] == LATENCY_PING || p[0] == LATENCY_PONG))
  }

  predicate Clashes(table: Table, f: Fragment)
  {
    f.msgId in table && (table[f.msgId].totalLen != f.totalLen || table[f.msgId].total != f.total)
  }

  /** The table can take the fragment without evicting anything. */
  predicate Room(table: Table, bytes: nat, f: Fragment)
  {
    && (f.msgId in table || (|table| < MAX_ACTIVE_MESSAGES && bytes + |f.data| <= MAX_REASSEMBLY_BYTES))
    && (f.msgId in table && f.index !in table[f.msgId].fragments ==> bytes + |f.data| <= MAX_REASSEMBLY_BYTES)
  }

  function Opened(table: Table, f: Fragment, now: int): Entry
  {
    if f.msgId in table then table[f.msgId] else Entry(f.totalLen, f.total, 0, now, map[])
  }

  function Kept(table: Table, f: Fragment, now: int): Fragments
  {
    var kept := Opened(table, f, now).fragments;
    if f.index in kept then kept else kept[f.index := f.data]
  }

  /** A fragment of a longer message: stored once; the last one delivers the message and forgets it. */
  function Step(table: Table, f: Fragment, now: int): (r: (Table, seq<seq<Byte>>))
  {
    var kept := Kept(table, f, now);
    if |kept| >= f.total then (table - {f.msgId}, [Assembled(kept, f.total)])
    else (table[f.msgId := Opened(table, f, now).(receivedCount := |kept|, fragments := kept)], [])
  }

  /** A fragment when nothing has to be evicted. A control message does not reach the application. */
  function Process(table: Table, f: Fragment, now: int): (r: (Table, seq<seq<Byte>>))
  {
    if f.total == 1 then (table, if Control(f.data) then [] else [f.data])
    else if Clashes(table, f) then (table - {f.msgId}, [])
    else Step(table, f, now)
  }

  /** When as many fragments are stored as the message has, none is missing and the lengths add up:
   * the two error branches at completion are never taken. */
  lemma CompleteIsExact(frags: Fragments, totalLen: U16, total: Byte, size: nat)
    requires size > 0 && 0 < totalLen && total == Count(totalLen, size) && |frags| >= total
    requires forall k :: k in frags ==> k < total && |frags[k]| == Expected(totalLen, size, total, k)
    ensures forall i: Byte :: i < total ==> i in frags
    ensures |Assembled(frags, total)| == totalLen
  {
    assert |frags.Keys| == |frags|;
    AllThere(frags.Keys, total);
    var ps: seq<seq<Byte>> := seq(total, i requires 0 <= i < total => frags[i]);
    AssembledJoin(frags, ps, total);
    assert ps[..total] == ps;
    JoinSize(ps, totalLen, size);
  }

  // ---------------------------------------------------------------- eviction

  /** What is left is as it was, and nothing that went is newer than what is left. */
  ghost predicate OldestGone(start: Table, left: Table)
  {
    && (forall k :: k in left ==> k in start && left[k] == start[k])
    && (forall k, gone :: k in left && gone in start && gone !in left ==> start[gone].createTime <= left[k].createTime)
  }

  lemma NothingGone(table: Table)
    ensures OldestGone(table, table)
  {
  }

  lemma OneMoreGone(start: Table, left: Table, oldest: U16)
    requires OldestGone(start, left) && oldest in left
    requires forall k :: k in left ==> left[oldest].createTime <= left[k].createTime
    ensures OldestGone(start, left - {oldest})
  {
  }

  /** The message that comes first by numeric creation time and then by id. */
  ghost predicate IsOldest(table: Table, id: U16)
  {
    && id in table
    && forall k :: k in table ==>
         table[id].createTime < table[k].createTime || (table[id].createTime == table[k].createTime && id <= k)
  }

  lemma {:induction false} OldestExists(table: Table) returns (id: U16)
    requires table != map[]
    ensures IsOldest(table, id)
    decreases |table|
  {
    id :| id in table;
    if exists k :: k in table && k != id {
      var k :| k in table && k != id;
      Smaller(table, id);
      assert forall x :: x in table && x != id ==> x in table - {id};
      var other := OldestExists(table - {id});
      if table[other].createTime < table[id].createTime || (table[other].createTime == table[id].createTime && other <= id) {
        id := other;
      }
    }
  }

  ghost function OldestOf(table: Table): (id: U16)
    requires table != map[]
    ensures IsOldest(table, id)
  {
    assert exists k :: IsOldest(table, k) by {
      var k := OldestExists(table);
    }
    var id :| IsOldest(table, id);
    id
  }

  /** The incoming bytes do not fit, or the new message does not. */
  ghost predicate Over(table: Table, incoming: nat, newMessage: bool)
  {
    (newMessage && |table| >= MAX_ACTIVE_MESSAGES) || Total(table) + incoming > MAX_REASSEMBLY_BYTES
  }

  /** ensureReassemblyCapacity: the oldest message goes until there is room. */
  ghost function Evict(table: Table, incoming: nat, newMessage: bool): (left: Table)
    ensures left.Keys <= table.Keys && forall k :: k in left ==> left[k] == table[k]
    decreases |table|
  {
    if table == map[] || !Over(table, incoming, newMessage) then table
    else
      Smaller(table, OldestOf(table));
      Evict(table - {OldestOf(table)}, incoming, newMessage)
  }

  /** Eviction goes no further than it must: with the last message to go there was no room, in bytes or in
   * messages. */
  lemma {:induction false} EvictsOnlyIfNeeded(table: Table, incoming: nat, newMessage: bool) returns (last: U16)
    requires Evict(table, incoming, newMessage) != table
    ensures var left := Evict(table, incoming, newMessage);
      && last in table && last !in left
      && ((newMessage && |left| + 1 >= 64) || Total(left[last := table[last]]) + incoming > 131072)
    decreases |table|
  {
    hide Total;
    var oldest := OldestOf(table);
    var rest := table - {oldest};
    Smaller(table, oldest);
    if Evict(rest, incoming, newMessage) == rest {
      last := oldest;
      assert rest[oldest := table[oldest]] == table;
    } else {
      last := EvictsOnlyIfNeeded(rest, incoming, newMessage);
    }
  }

  /** Storing a fragment of a longer message, with what has to be evicted for it: a new message makes room
   * before it is opened; the message itself may be the one that goes. */
  ghost function Keeps(table: Table, f: Fragment, now: int): (r: (Table, seq<seq<Byte>>))
  {
    if f.msgId !in table && |f.data| > MAX_REASSEMBLY_BYTES then (table, [])
    else
      var begun := if f.msgId in table then table
                   else Evict(table, |f.data|, true)[f.msgId := Entry(f.totalLen, f.total, 0, now, map[])];
      if f.index in begun[f.msgId].fragments then Finished(begun, f.msgId)
      else if |f.data| > MAX_REASSEMBLY_BYTES then (begun, [])
      else
        var left := Evict(begun, |f.data|, false);
        if f.msgId !in left then (left, [])
        else Finished(left[f.msgId := WithFragment(left[f.msgId], f)], f.msgId)
  }

  /** What one well-formed fragment that is no control message does. */
  ghost function Processed(table: Table, f: Fragment, now: int): (r: (Table, seq<seq<Byte>>))
  {
    if f.total == 1 then (table, [f.data])
    else if Clashes(table, f) then (table - {f.msgId}, [])
    else Keeps(table, f, now)
  }

  /** With room, nothing is evicted. */
  lemma ProcessedWithRoom(table: Table, f: Fragment, now: int, mtu: nat, size: nat)
    requires size > 0 && TableOk(table, mtu, size) && WellFormed(f, mtu, size) && Room(table, Total(table), f)
    requires f.total == 1 ==> !Control(f.data)
    ensures Processed(table, f, now) == Process(table, f, now)
  {
    hide Total, TableOk, EntryOk, Step, Control, Count, Expected, Finished;
    if f.total != 1 && !Clashes(table, f) {
      var begun := if f.msgId in table then table else table[f.msgId := Entry(f.totalLen, f.total, 0, now, map[])];
      OpenedSums(table, f, now);
      var stored := if f.index in begun[f.msgId].fragments then begun else begun[f.msgId := WithFragment(begun[f.msgId], f)];
      StepFinishes(table, begun, stored, f, now, mtu, size);
    }
  }

  lemma OpenedSums(table: Table, f: Fragment, now: int)
    ensures f.msgId !in table ==> Total(table[f.msgId := Entry(f.totalLen, f.total, 0, now, map[])]) == Total(table)
  {
    hide Total;
    var e := Entry(f.totalLen, f.total, 0, now, map[]);
    TotalWith(table, f.msgId, e);
    assert StoredBytes(e.fragments) == 0;
  }

  // ---------------------------------------------------------------- the tunnel

  class RawUdpTunnel {
    /** m_roomMtu and maxFragmentPayload(). */
    const mtu: nat
    const size: nat
    var nextMsgId: U16
    var reassembly: Table
    var reassemblyBytes: nat
    /** What m_onData has been given. */
    var output: seq<seq<Byte>>
    /** What sendRawPacket has been given. */
    var sent: seq<seq<Byte>>

    /** The byte count is exact and both budgets are kept. */
    ghost predicate Budgets()
      reads this
    {
      && reassemblyBytes == Total(reassembly)
      && reassemblyBytes <= MAX_REASSEMBLY_BYTES && |reassembly| <= MAX_ACTIVE_MESSAGES
    }

    ghost predicate Valid()
      reads this
    {
      Budgets() && 0 < size && TableOk(reassembly, mtu, size)
    }

    constructor (mtu: nat, size: nat)
      requires 0 < size
      ensures Valid() && this.mtu == mtu && this.size == size && reassembly == map[] && output == [] && sent == []
    {
      this.mtu, this.size := mtu, size;
      nextMsgId, reassembly, reassemblyBytes, output, sent := 0, map[], 0, [], [];
      new;
      assert Total(map[]) == 0;
    }

    // -------------------------------------------------------------- sending

    method SendFragment(f: Fragment)
      modifies this`sent
      ensures sent == old(sent) + [Encode(f)]
    {
      sent := sent + [Encode(f)];
    }

    method NextMsgId() returns (id: U16)
      modifies this`nextMsgId
      ensures id == old(nextMsgId) && nextMsgId == if id == 0xFFFF then 0 else id + 1
    {
      id := nextMsgId;
      nextMsgId := (nextMsgId + 1) % 0x1_0000;
    }

    /** send: the packet goes out as the encoded fragments of its pieces, in order. */
    method Send(p: seq<Byte>) returns (result: int)
      requires 0 < size && mtu < 0x1_0000
      modifies this`sent, this`nextMsgId
      ensures p == [] ==> result == 0 && sent == old(sent) && nextMsgId == old(nextMsgId)
      ensures |p| > mtu ==> result == -1 && sent == old(sent) && nextMsgId == old(nextMsgId)
      ensures 0 < |p| <= mtu && Count(|p|, size) > 255 ==> result == -1 && sent == old(sent)
      ensures 0 < |p| <= mtu && Count(|p|, size) <= 255 ==>
        result == |p| && sent == old(sent) + Encodings(p, size, old(nextMsgId), Count(|p|, size))
      ensures 0 < |p| <= mtu ==> nextMsgId == if old(nextMsgId) == 0xFFFF then 0 else old(nextMsgId) + 1
    {
      hide Count, Encode, Encodings;
      if p == [] {
        return 0;
      }
      if |p| > mtu {
        return -1;
      }
      var id := NextMsgId();
      var total := Count(|p|, size);
      CountBounds(|p|, size);
      if total <= 0 || total > 255 {
        return -1;
      }
      PiecesShape(p, size);
      EncodingsNone(p, size, id);
      assert sent + [] == sent;
      for i := 0 to total
        invariant sent == old(sent) + Encodings(p, size, id, i)
        invariant nextMsgId == if id == 0xFFFF then 0 else id + 1
      {
        PieceAt(p, size, i);
        var offset := i * size;
        var length := if size < |p| - offset then size else |p| - offset;
        assert offset + length == End(|p|, size, i);
        EncodingsNext(p, size, id, i);
        SendFragment(Fragment(id, i, total, |p|, p[offset..offset + length]));
      }
      result := |p|;
    }

    // -------------------------------------------------------------- eviction

    /** removeReassemblyEntry. The byte count never has to be cut off at zero. */
    method RemoveEntry(id: U16)
      requires Budgets()
      modifies this`reassembly, this`reassemblyBytes
      ensures Budgets() && reassembly == old(reassembly) - {id} && reassemblyBytes <= old(reassemblyBytes)
    {
      hide StoredBytes, Total;
      if id !in reassembly {
        assert reassembly - {id} == reassembly;
        return;
      }
      var bytes := SumOf(reassembly[id].fragments);
      TotalWithout(reassembly, id);
      Smaller(reassembly, id);
      reassemblyBytes := Saturating(reassemblyBytes, bytes);
      reassembly := reassembly - {id};
    }

    method Drop(id: U16)
      requires Valid()
      modifies this`reassembly, this`reassemblyBytes
      ensures Valid() && reassembly == old(reassembly) - {id} && reassemblyBytes <= old(reassemblyBytes)
    {
      hide TableOk, Total;
      Fewer(reassembly, id, mtu, size);
      RemoveEntry(id);
    }

    /** The message with the numerically smallest creation time, the first such in key order. */
    method Oldest() returns (oldest: U16)
      requires reassembly != map[]
      ensures IsOldest(reassembly, oldest)
    {
      var left := reassembly.Keys;
      oldest :| oldest in left;
      while left != {}
        invariant left <= reassembly.Keys && oldest in reassembly
        invariant forall k :: k in reassembly.Keys - left ==>
          reassembly[oldest].createTime < reassembly[k].createTime
          || (reassembly[oldest].createTime == reassembly[k].createTime && oldest <= k)
        decreases |left|
      {
        var k :| k in left;
        if reassembly[k].createTime < reassembly[oldest].createTime
           || (reassembly[k].createTime == reassembly[oldest].createTime && k < oldest) {
          oldest := k;
        }
        left := left - {k};
      }
    }

    /** ensureReassemblyCapacity succeeds exactly when the incoming bytes alone fit; it evicts only
     * when it must, and the oldest first. */
    method EnsureCapacity(incoming: nat, newMessage: bool) returns (ok: bool)
      requires Valid()
      modifies this`reassembly, this`reassemblyBytes
      ensures Valid()
      ensures ok <==> incoming <= 131072
      ensures ok ==> reassemblyBytes + incoming <= 131072 && (newMessage ==> |reassembly| < 64)
      ensures old(reassemblyBytes) + incoming <= 131072 && (newMessage ==> |old(reassembly)| < 64) ==>
        reassembly == old(reassembly) && reassemblyBytes == old(reassemblyBytes)
      ensures OldestGone(old(reassembly), reassembly)
      ensures reassembly == if ok then Evict(old(reassembly), incoming, newMessage) else old(reassembly)
    {
      hide EntryOk, TableOk, Total, OldestGone;
      NothingGone(reassembly);
      if incoming > MAX_REASSEMBLY_BYTES {
        return false;
      }
      while reassembly != map[]
            && ((newMessage && |reassembly| >= MAX_ACTIVE_MESSAGES) || reassemblyBytes + incoming > MAX_REASSEMBLY_BYTES)
        invariant Valid()
        invariant OldestGone(old(reassembly), reassembly)
        invariant Evict(reassembly, incoming, newMessage) == Evict(old(reassembly), incoming, newMessage)
        invariant old(reassemblyBytes) + incoming <= MAX_REASSEMBLY_BYTES && (newMessage ==> |old(reassembly)| < MAX_ACTIVE_MESSAGES) ==>
          reassembly == old(reassembly) && reassemblyBytes == old(reassemblyBytes)
        decreases |reassembly|
      {
        var oldest := Oldest();
        assert oldest == OldestOf(reassembly);
        Smaller(reassembly, oldest);
        OneMoreGone(old(reassembly), reassembly, oldest);
        Drop(oldest);
      }
      if reassembly == map[] {
        NoBytes(reassembly);
      }
      ok := (!newMessage || |reassembly| < MAX_ACTIVE_MESSAGES) && reassemblyBytes + incoming <= MAX_REASSEMBLY_BYTES;
    }

    /** cleanupStaleEntries: exactly the messages older than the timeout go. */
    method CleanupStale(now: int)
      requires Valid()
      modifies this`reassembly, this`reassemblyBytes
      ensures Valid() && reassembly == old(reassembly) - Stale(old(reassembly), now)
      ensures forall id :: id in reassembly <==> id in old(reassembly) && (now - old(reassembly)[id].createTime) % 0x1_0000_0000 <= 2000
    {
      StaleMeans(reassembly, now);
      hide TableOk, Total, Stale, EntryOk, Valid;
      ghost var start := reassembly;
      var stale := Stale(reassembly, now);
      ghost var gone: set<U16> := {};
      assert reassembly - gone == reassembly;
      while stale != {}
        invariant Valid() && gone + stale == Stale(start, now) && reassembly == start - gone
        decreases |stale|
      {
        var id :| id in stale;
        Drop(id);
        OneMore(start, gone, stale, id);
        stale, gone := stale - {id}, gone + {id};
      }
      assert gone + {} == gone;
    }

    // -------------------------------------------------------------- receiving

    /** A new entry without fragments. */
    method Open(f: Fragment, now: int)
      requires Valid() && WellFormed(f, mtu, size) && f.total > 1
      requires f.msgId !in reassembly && |reassembly| < MAX_ACTIVE_MESSAGES
      modifies this`reassembly
      ensures Valid() && reassembly == old(reassembly)[f.msgId := Entry(f.totalLen, f.total, 0, now, map[])]
    {
      hide Total, Count, Expected;
      var e := Entry(f.totalLen, f.total, 0, now, map[]);
      TotalWith(reassembly, f.msgId, e);
      assert StoredBytes(e.fragments) == 0;
      AddedKey(reassembly, f.msgId, e);
      reassembly := reassembly[f.msgId := e];
    }

    /** A fragment is stored and counted. */
    method Store(f: Fragment)
      requires Budgets() && f.msgId in reassembly && f.index !in reassembly[f.msgId].fragments
      requires reassemblyBytes + |f.data| <= MAX_REASSEMBLY_BYTES
      modifies this`reassembly, this`reassemblyBytes
      ensures Budgets() && reassemblyBytes == old(reassemblyBytes) + |f.data|
      ensures reassembly == old(reassembly)[f.msgId := WithFragment(old(reassembly)[f.msgId], f)]
    {
      hide Total, StoredBytes;
      var e := reassembly[f.msgId];
      StoredSums(reassembly, f);
      reassembly := reassembly[f.msgId := e.(fragments := e.fragments[f.index := f.data], receivedCount := e.receivedCount + 1)];
      reassemblyBytes := reassemblyBytes + |f.data|;
    }

    /** Completion: with the last fragment the message is delivered and forgotten. */
    method Finish(id: U16)
      requires Budgets() && 0 < size && id in reassembly && TableOk(reassembly - {id}, mtu, size) && Filling(reassembly[id], mtu, size)
      modifies this`reassembly, this`reassemblyBytes, this`output
      ensures Valid()
      ensures reassembly == Finished(old(reassembly), id).0 && output == old(output) + Finished(old(reassembly), id).1
    {
      hide Total, StoredBytes, Count, Expected;
      var entry := reassembly[id];
      if entry.receivedCount >= entry.total {
        CompleteIsExact(entry.fragments, entry.totalLen, entry.total, size);
        var assembled: seq<Byte> := [];
        for i: int := 0 to entry.total
          invariant 0 <= i <= 256 && assembled == Assembled(entry.fragments, i)
          invariant reassembly == old(reassembly) && reassemblyBytes == old(reassemblyBytes) && output == old(output)
        {
          assembled := assembled + entry.fragments[i];
        }
        RemoveEntry(id);
        output := output + [assembled];
      } else {
        StillOk(reassembly, id, mtu, size);
      }
    }

    /** The part of processFrag that keeps a fragment of a longer message. */
    method Keep(f: Fragment, now: int)
      requires Valid() && WellFormed(f, mtu, size) && f.total > 1 && !Clashes(reassembly, f)
      modifies this`reassembly, this`reassemblyBytes, this`output
      ensures Valid()
      ensures reassembly == Keeps(old(reassembly), f, now).0 && output == old(output) + Keeps(old(reassembly), f, now).1
    {
      hide Total, StoredBytes, Count, Expected, Step, Kept, EntryOk, Filling, TableOk, Finished, Evict;
      assert output + [] == output;
      if f.msgId !in reassembly {
        var fits := EnsureCapacity(|f.data|, true);
        if !fits {
          return;
        }
        Open(f, now);
      }
      if f.index !in reassembly[f.msgId].fragments {
        var fits := EnsureCapacity(|f.data|, false);
        if !fits {
          return;
        }
        if f.msgId !in reassembly {
          return;
        }
        StoreStays(reassembly, f, mtu, size);
        Store(f);
      } else {
        AlreadyThere(reassembly, f.msgId, mtu, size);
      }
      Finish(f.msgId);
    }

    lemma RoomSuffices(p: seq<Byte>, now: int)
      requires Valid() && |p| >= HEADER
      ensures Accepted(p, mtu, size) && Room(reassembly, reassemblyBytes, Decode(p)) ==>
        Processed(reassembly, Decode(p), now) == Process(reassembly, Decode(p), now)
    {
      hide Total, Count, TableOk, Decode, Processed, Process, Control, Room;
      if Accepted(p, mtu, size) && Room(reassembly, reassemblyBytes, Decode(p)) {
        ProcessedWithRoom(reassembly, Decode(p), now, mtu, size);
      }
    }

    /** processFrag on the bytes that arrived. */
    method ProcessFrag(p: seq<Byte>, now: int)
      requires Valid()
      modifies this`reassembly, this`reassemblyBytes, this`output, this`sent, this`nextMsgId
      ensures Valid()
      ensures |p| < HEADER || !WellFormed(Decode(p), mtu, size) ==>
        reassembly == old(reassembly) && output == old(output) && sent == old(sent)
      ensures |p| >= HEADER && WellFormed(Decode(p), mtu, size) && Decode(p).total == 1 && Control(Decode(p).data) ==>
        && reassembly == old(reassembly) && output == old(output)
        && sent == old(sent) + Reply(Decode(p).data, old(nextMsgId))
      ensures Accepted(p, mtu, size) ==> sent == old(sent) && nextMsgId == old(nextMsgId)
      ensures Accepted(p, mtu, size) ==>
        && reassembly == Processed(old(reassembly), Decode(p), now).0
        && output == old(output) + Processed(old(reassembly), Decode(p), now).1
      ensures |p| >= 6 && WellFormed(Decode(p), mtu, size) && p[3] == 1 ==>
        && reassembly == old(reassembly)
        && output == old(output) + (if (|p| == 7 && p[6] == 0) || (|p| == 11 && (p[6] == 1 || p[6] == 2)) then [] else [p[6..]])
      ensures |p| >= 6 && WellFormed(Decode(p), mtu, size) && p[3] > 1 && Decode(p).msgId in old(reassembly) ==>
        var e, f := old(reassembly)[Decode(p).msgId], Decode(p);
        e.totalLen != f.totalLen || e.total != f.total ==> reassembly == old(reassembly) - {f.msgId} && output == old(output)
      ensures Accepted(p, mtu, size) && old(Room(reassembly, reassemblyBytes, Decode(p))) ==>
        Processed(old(reassembly), Decode(p), now) == Process(old(reassembly), Decode(p), now)
    {
      hide Total, Count, Step, Kept, TableOk, Decode, Encode, Room, Keeps;
      if |p| < HEADER {
        return;
      }
      var f := Decode(p);
      RoomSuffices(p, now);
      DecodedParts(p);
      if f.data == [] || f.total == 0 || f.index >= f.total || f.totalLen == 0 || f.totalLen > mtu {
        return;
      }
      if Count(f.totalLen, size) != f.total {
        return;
      }
      if |f.data| != (if f.index + 1 == f.total then f.totalLen - size * (f.total - 1) else size) {
        return;
      }
      if f.total == 1 && |f.data| == 1 && f.data[0] == KEEPALIVE_MARKER && f.totalLen == 1 {
        return;
      }
      if f.total == 1 && |f.data| == 5 && f.totalLen == 5 {
        var probe := f.data[0];
        if probe == LATENCY_PING {
          var id := NextMsgId();
          SendFragment(Fragment(id, 0, 1, 5, [LATENCY_PONG] + f.data[1..]));
          return;
        }
        if probe == LATENCY_PONG {
          return;
        }
      }
      SingleLength(f, size);
      if f.total == 1 {
        if |f.data| == f.totalLen {
          output := output + [f.data];
        }
        return;
      }
      if f.msgId in reassembly && (reassembly[f.msgId].totalLen != f.totalLen || reassembly[f.msgId].total != f.total) {
        RemoveEntry(f.msgId);
        Fewer(old(reassembly), f.msgId, mtu, size);
        return;
      }
      Keep(f, now);
    }
  }

  // ---------------------------------------------------------------- lemmas on one step

  /** The messages whose age, a 32-bit difference, is above the timeout. */
  function Stale(table: Table, now: int): set<U16>
  {
    set k | k in table && (now - table[k].createTime) % 0x1_0000_0000 > FRAG_TIMEOUT_MS
  }

  lemma StaleMeans(table: Table, now: int)
    ensures forall id :: id in table - Stale(table, now) <==> id in table && (now - table[id].createTime) % 0x1_0000_0000 <= 2000
  {
  }

  lemma OneMore(table: Table, gone: set<U16>, stale: set<U16>, id: U16)
    requires id in stale
    ensures table - gone - {id} == table - (gone + {id})
    ensures (gone + {id}) + (stale - {id}) == gone + stale
  {
  }

  /** Storing a fragment adds its bytes and leaves the number of messages. */
  lemma StoredSums(table: Table, f: Fragment)
    requires f.msgId in table && f.index !in table[f.msgId].fragments
    ensures var stored := table[f.msgId := WithFragment(table[f.msgId], f)];
      Total(stored) == Total(table) + |f.data| && |stored| == |table|
  {
    hide Total, StoredBytes;
    var e := table[f.msgId];
    StoredWith(e.fragments, f.index, f.data);
    TotalWith(table, f.msgId, WithFragment(e, f));
    SameSize(table, f.msgId, WithFragment(e, f));
  }

  /** The fragments that send produces for the first k pieces of a packet. */
  ghost function Encodings(p: seq<Byte>, size: nat, id: U16, k: nat): (r: seq<seq<Byte>>)
    requires size > 0 && k <= Count(|p|, size) <= 255 && |p| < 0x1_0000
  {
    PiecesShape(p, size);
    seq(k, i requires 0 <= i < k => Encode(FragmentOf(p, size, id, i)))
  }

  ghost function FragmentOf(p: seq<Byte>, size: nat, id: U16, i: nat): (f: Fragment)
    requires size > 0 && i < Count(|p|, size) <= 255 && |p| < 0x1_0000
  {
    PiecesShape(p, size);
    Fragment(id, i, Count(|p|, size), |p|, Pieces(p, size)[i])
  }

  lemma EncodingsNone(p: seq<Byte>, size: nat, id: U16)
    requires size > 0 && 0 < Count(|p|, size) <= 255 && |p| < 0x1_0000
    ensures Encodings(p, size, id, 0) == []
  {
  }

  lemma EncodingsNext(p: seq<Byte>, size: nat, id: U16, k: nat)
    requires size > 0 && k < Count(|p|, size) <= 255 && |p| < 0x1_0000
    ensures Encodings(p, size, id, k + 1) == Encodings(p, size, id, k) + [Encode(FragmentOf(p, size, id, k))]
  {
    hide Encode, FragmentOf, Count;
  }

  /** Every fragment that send produces passes the receiver's checks under the same settings. */
  lemma SentIsWellFormed(p: seq<Byte>, mtu: nat, size: nat, id: U16, i: nat)
    requires 0 < size && 0 < |p| <= mtu < 0x1_0000 && i < Count(|p|, size) <= 255
    ensures Decode(Encode(FragmentOf(p, size, id, i))) == FragmentOf(p, size, id, i)
    ensures WellFormed(FragmentOf(p, size, id, i), mtu, size)
    ensures !Control(p) ==> Accepted(Encode(FragmentOf(p, size, id, i)), mtu, size)
  {
    hide Count, Expected, Encode, Decode;
    var f := FragmentOf(p, size, id, i);
    DecodeEncode(f);
    PiecesShape(p, size);
    if f.total == 1 {
      SingleLength(f, size);
      PiecesJoin(p, size);
      assert Pieces(p, size) == [f.data];
      assert Join([f.data]) == f.data + Join([]);
    }
  }

  /** A well-formed fragment that is no control message. */
  ghost predicate Accepted(p: seq<Byte>, mtu: nat, size: nat)
    requires size > 0
  {
    |p| >= HEADER && WellFormed(Decode(p), mtu, size) && !(Decode(p).total == 1 && Control(Decode(p).data))
  }

  /** The answer to a control message: a pong with the time stamp of the ping. */
  ghost function Reply(p: seq<Byte>, id: U16): seq<seq<Byte>>
    requires Control(p)
  {
    if |p| == 5 && p[0] == LATENCY_PING then [Encode(Fragment(id, 0, 1, 5, [LATENCY_PONG] + p[1..]))] else []
  }

  /** A ping is answered by a pong with its time stamp, in a message of its own; nothing else is. */
  lemma ReplyLayout(p: seq<Byte>, id: U16)
    requires Control(p)
    ensures Reply(p, id) == if |p| == 5 && p[0] == 1 then [[id / 256, id % 256, 0, 1, 0, 5, 2] + p[1..]] else []
  {
    if |p| == 5 && p[0] == 1 {
      HeaderLayout(Fragment(id, 0, 1, 5, [LATENCY_PONG] + p[1..]));
      Associates([id / 256, id % 256, 0, 1, 0, 5], [LATENCY_PONG], p[1..]);
      assert [id / 256, id % 256, 0, 1, 0, 5] + [LATENCY_PONG] == [id / 256, id % 256, 0, 1, 0, 5, 2];
    }
  }

  /** What processFrag checks, on the bytes themselves. */
  lemma WellFormedBytes(p: seq<Byte>, mtu: nat, size: nat)
    requires size > 0 && |p| >= 6
    ensures WellFormed(Decode(p), mtu, size) <==>
      var index: int, total: int, hi: int, lo: int := p[2], p[3], p[4], p[5];
      var n := 256 * hi + lo;
      && |p| > 6 && index < total && 0 < n <= mtu && (n + size - 1) / size == total
      && |p| - 6 == if index + 1 == total then n - size * (total - 1) else size
  {
  }

  lemma DecodedParts(p: seq<Byte>)
    requires |p| >= 6
    ensures Decode(p).total == p[3] && Decode(p).data == p[6..]
  {
  }

  lemma SingleLength(f: Fragment, size: nat)
    requires size > 0 && f.index < f.total && |f.data| == Expected(f.totalLen, size, f.total, f.index)
    ensures f.total == 1 ==> |f.data| == f.totalLen
  {
    assert size * 0 == 0;
  }

  function WithFragment(e: Entry, f: Fragment): Entry
  {
    e.(fragments := e.fragments[f.index := f.data], receivedCount := e.receivedCount + 1)
  }

  /** As EntryOk, but the message may be complete. */
  ghost predicate Filling(e: Entry, mtu: nat, size: nat)
    requires size > 0
  {
    && 1 < e.total && 0 < e.totalLen <= mtu && e.total == Count(e.totalLen, size)
    && e.receivedCount == |e.fragments|
    && forall k :: k in e.fragments ==> k < e.total && |e.fragments[k]| == Expected(e.totalLen, size, e.total, k)
  }

  ghost function Finished(table: Table, id: U16): (Table, seq<seq<Byte>>)
    requires id in table
  {
    var e := table[id];
    if e.receivedCount >= e.total then (table - {id}, [Assembled(e.fragments, e.total)]) else (table, [])
  }

  lemma AddedKey(table: Table, id: U16, e: Entry)
    requires id !in table
    ensures |table[id := e]| == |table| + 1
  {
    Smaller(table[id := e], id);
    assert table[id := e] - {id} == table;
  }

  lemma SameSize(table: Table, id: U16, e: Entry)
    requires id in table
    ensures |table[id := e]| == |table|
  {
    Smaller(table[id := e], id);
    Smaller(table, id);
    assert table[id := e] - {id} == table - {id};
  }

  lemma Fewer(table: Table, id: U16, mtu: nat, size: nat)
    requires size > 0 && TableOk(table, mtu, size)
    ensures TableOk(table - {id}, mtu, size)
  {
    hide EntryOk;
  }

  lemma StillOk(table: Table, id: U16, mtu: nat, size: nat)
    requires size > 0 && id in table && TableOk(table - {id}, mtu, size)
    requires Filling(table[id], mtu, size) && table[id].receivedCount < table[id].total
    ensures TableOk(table, mtu, size)
  {
    hide Count, Expected;
    forall k | k in table
      ensures EntryOk(table[k], mtu, size)
    {
      assert k != id ==> k in table - {id} && EntryOk((table - {id})[k], mtu, size);
    }
  }

  lemma AlreadyThere(table: Table, id: U16, mtu: nat, size: nat)
    requires size > 0 && TableOk(table, mtu, size) && id in table
    ensures TableOk(table - {id}, mtu, size) && Filling(table[id], mtu, size)
    ensures table[id].receivedCount == |table[id].fragments|
  {
    hide Count, Expected;
  }

  lemma StoreStays(table: Table, f: Fragment, mtu: nat, size: nat)
    requires size > 0 && TableOk(table, mtu, size) && f.msgId in table && !Clashes(table, f) && WellFormed(f, mtu, size)
    requires f.index !in table[f.msgId].fragments
    ensures var stored := table[f.msgId := WithFragment(table[f.msgId], f)];
      TableOk(stored - {f.msgId}, mtu, size) && Filling(stored[f.msgId], mtu, size)
  {
    hide Count, Expected;
    StoredWith(table[f.msgId].fragments, f.index, f.data);
    var stored := table[f.msgId := WithFragment(table[f.msgId], f)];
    assert stored - {f.msgId} == table - {f.msgId};
  }

  lemma KeptCount(before: Table, f: Fragment, now: int, mtu: nat, size: nat)
    requires size > 0 && TableOk(before, mtu, size)
    ensures var e := Opened(before, f, now);
      var next := if f.index in e.fragments then e else WithFragment(e, f);
      next == e.(receivedCount := |Kept(before, f, now)|, fragments := Kept(before, f, now))
  {
    hide Count, Expected;
    var e := Opened(before, f, now);
    if f.msgId in before {
      AlreadyThere(before, f.msgId, mtu, size);
    }
    if f.index !in e.fragments {
      StoredWith(e.fragments, f.index, f.data);
    }
  }

  /** Opening, storing and finishing are one step. */
  lemma StepFinishes(before: Table, begun: Table, stored: Table, f: Fragment, now: int, mtu: nat, size: nat)
    requires size > 0 && TableOk(before, mtu, size) && !Clashes(before, f)
    requires begun == if f.msgId in before then before else before[f.msgId := Entry(f.totalLen, f.total, 0, now, map[])]
    requires stored == if f.index in begun[f.msgId].fragments then begun else begun[f.msgId := WithFragment(begun[f.msgId], f)]
    ensures f.msgId in stored && Finished(stored, f.msgId) == Step(before, f, now)
  {
    hide Assembled, WithFragment, Kept, TableOk;
    KeptCount(before, f, now, mtu, size);
    var e := Opened(before, f, now);
    assert begun[f.msgId] == e;
    StoredTable(before, begun, stored, f.msgId, if f.index in e.fragments then e else WithFragment(e, f));
  }

  lemma StoredTable(before: Table, begun: Table, stored: Table, id: U16, last: Entry)
    requires begun.Keys == before.Keys + {id} && stored.Keys == begun.Keys && stored[id] == last
    requires forall k :: k in before && k != id ==> begun[k] == before[k] && stored[k] == begun[k]
    ensures stored == before[id := last] && stored - {id} == before - {id}
  {
  }
}
