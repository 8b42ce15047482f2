/**
 * Room-list deltas as bytes: what the server writes, what the validator accepts and what the client
 * reads. Every delta the server publishes is accepted and turns the old rooms into the new ones.
 */
module RoomDeltas {
  import opened Bytes
  import opened Collections
  import opened Numbers
  import opened RoomList
  import opened RoomReplica
  import opened RoomWire
  import opened SignalValidator
  import opened RoomPages

  const UPSERT: Byte := 1
  const REMOVE: Byte := 2

  // ---------------------------------------------------------------- operations

  predicate OpOk(op: Op)
  {
    match op
    case Upsert(item) => ItemOk(item)
    case Remove(id) => 0 < id < 0x1_0000_0000
  }

  function IdOf(op: Op): nat
  {
    match op
    case Upsert(item) => item.id
    case Remove(id) => id
  }

  function EncodeOp(op: Op): (s: seq<Byte>)
    ensures |s| == OpSize(op)
  {
    match op
    case Upsert(item) => [UPSERT] + EncodeItem(item)
    case Remove(id) => [REMOVE] + Number(id, 4)
  }

  /** The operation that stands at position p, if one does. */
  function OpAt(d: seq<Byte>, p: nat): (op: Option<Op>)
  {
    if p >= |d| then None
    else if d[p] == UPSERT then
      var item := ItemAt(d, p + 1);
      if item.None? then None else Some(Upsert(item.value))
    else if d[p] == REMOVE then
      if p + 5 > |d| || Value(d[p + 1..p + 5]) == 0 then None else Some(Remove(Value(d[p + 1..p + 5])))
    else None
  }

  lemma OccursByte(d: seq<Byte>, p: nat, b: Byte)
    ensures Occurs(d, p, [b]) <==> p < |d| && d[p] == b
  {
    if p < |d| {
      assert d[p..p + 1] == [d[p]];
    }
  }

  /** An operation stands at p exactly when its encoding does and its fields are acceptable. */
  lemma OpAtMeans(d: seq<Byte>, p: nat, op: Op)
    ensures OpAt(d, p) == Some(op) <==> OpOk(op) && Occurs(d, p, EncodeOp(op))
  {
    hide ItemAt, ItemOk, Number, Value, Occurs, EncodeItem;
    Widths();
    match op {
      case Upsert(item) =>
        OccursByte(d, p, UPSERT);
        OccursParts(d, p, [UPSERT], EncodeItem(item));
        ItemAtMeans(d, p + 1, item);
      case Remove(id) =>
        OccursByte(d, p, REMOVE);
        OccursParts(d, p, [REMOVE], Number(id, 4));
        RemoveAt(d, p, id);
    }
  }

  lemma RemoveAt(d: seq<Byte>, p: nat, id: nat)
    ensures 0 < id < 0x1_0000_0000 ==> (Occurs(d, p + 1, Number(id, 4)) <==> p + 5 <= |d| && Value(d[p + 1..p + 5]) == id)
    ensures p + 5 <= |d| ==> Value(d[p + 1..p + 5]) < 0x1_0000_0000
  {
    Widths();
    if 0 < id < 0x1_0000_0000 {
      OccursNumber(d, p + 1, id, 4);
    }
    if p + 5 <= |d| {
      NumberOfValue(d[p + 1..p + 5]);
    }
  }

  // ---------------------------------------------------------------- lists of operations

  function EncodeOps(ops: seq<Op>): (s: seq<Byte>)
    ensures |s| == OpsSize(ops)
  {
    if ops == [] then [] else EncodeOps(ops[..|ops| - 1]) + EncodeOp(ops[|ops| - 1])
  }

  ghost predicate AllOpsOk(ops: seq<Op>)
  {
    forall i :: 0 <= i < |ops| ==> OpOk(ops[i])
  }

  /** No two operations are about the same room. */
  ghost predicate OneEach(ops: seq<Op>)
  {
    forall i, j :: 0 <= i < j < |ops| ==> IdOf(ops[i]) != IdOf(ops[j])
  }

  /** The k operations that stand one after the other behind the header. */
  function OpsAt(d: seq<Byte>, k: nat): (r: Option<seq<Op>>)
  {
    if k == 0 then Some([])
    else
      var before := OpsAt(d, k - 1);
      if before.None? then None
      else
        var next := OpAt(d, DELTA_HEADER + OpsSize(before.value));
        if next.None? then None else Some(before.value + [next.value])
  }

  lemma {:induction false} OpsAtMeans(d: seq<Byte>, ops: seq<Op>)
    requires DELTA_HEADER <= |d|
    ensures OpsAt(d, |ops|) == Some(ops) <==> AllOpsOk(ops) && Occurs(d, DELTA_HEADER, EncodeOps(ops))
  {
    hide OpAt, OpOk, EncodeOp, Occurs;
    if ops == [] {
      OccursNothing(d, DELTA_HEADER);
    } else {
      var init, last := ops[..|ops| - 1], ops[|ops| - 1];
      OpsAtMeans(d, init);
      OpAtMeans(d, DELTA_HEADER + OpsSize(init), last);
      OccursParts(d, DELTA_HEADER, EncodeOps(init), EncodeOp(last));
      assert ops == init + [last];
      AllOpsLast(init, last);
      OpsAtLast(d, init, last);
    }
  }

  lemma AllOpsLast(init: seq<Op>, last: Op)
    ensures AllOpsOk(init + [last]) <==> AllOpsOk(init) && OpOk(last)
  {
    hide OpOk;
    var all := init + [last];
    assert all[|init|] == last;
    assert forall i :: 0 <= i < |init| ==> all[i] == init[i];
  }

  lemma OpsAtLast(d: seq<Byte>, init: seq<Op>, last: Op)
    ensures OpsAt(d, |init| + 1) == Some(init + [last]) <==>
      OpsAt(d, |init|) == Some(init) && OpAt(d, DELTA_HEADER + OpsSize(init)) == Some(last)
  {
    hide OpAt, OpsSize;
    var before := OpsAt(d, |init|);
    if before.Some? && OpsAt(d, |init| + 1) == Some(init + [last]) {
      var next := OpAt(d, DELTA_HEADER + OpsSize(before.value));
      assert before.value + [next.value] == init + [last];
      assert before.value == (before.value + [next.value])[..|init + [last]| - 1];
      assert init == (init + [last])[..|init|];
    }
  }

  /** Once an operation is missing, the list is; a shorter list is the beginning of a longer one. */
  lemma {:induction false} OpsAtPrefix(d: seq<Byte>, i: nat, k: nat)
    requires i <= k
    ensures OpsAt(d, i).None? ==> OpsAt(d, k).None?
    ensures OpsAt(d, k).Some? ==> OpsAt(d, i).Some? && OpsAt(d, i).value <= OpsAt(d, k).value
  {
    hide OpAt;
    if i < k {
      OpsAtPrefix(d, i, k - 1);
    }
  }

  lemma NoneBad()
    ensures AllOpsOk([])
  {
  }

  lemma {:induction false} OpsAtLength(d: seq<Byte>, k: nat)
    ensures OpsAt(d, k).Some? ==> |OpsAt(d, k).value| == k && AllOpsOk(OpsAt(d, k).value)
  {
    hide OpAt, OpOk, AllOpsOk, OpsSize, Occurs;
    if k == 0 {
      NoneBad();
    } else {
      OpsAtLength(d, k - 1);
      var before := OpsAt(d, k - 1);
      if before.Some? {
        var next := OpAt(d, DELTA_HEADER + OpsSize(before.value));
        if next.Some? {
          OpAtMeans(d, DELTA_HEADER + OpsSize(before.value), next.value);
          AllOpsLast(before.value, next.value);
        }
      }
    }
  }

  // ---------------------------------------------------------------- deltas

  function DeltaHead(base: nat, revision: nat, count: nat): (s: seq<Byte>)
    ensures |s| == DELTA_HEADER
  {
    Number(base, 8) + (Number(revision, 8) + Number(count, 2))
  }

  /** The payload of MSG_ROOM_LIST_PUSH. */
  function EncodeDelta(m: Msg): (s: seq<Byte>)
    requires m.Delta?
    ensures |s| == DeltaSize(m.ops)
  {
    DeltaHead(m.base, m.revision, |m.ops|) + EncodeOps(m.ops)
  }

  /** What the validator is to accept. */
  ghost predicate DeltaOk(m: Msg)
  {
    && m.Delta? && m.base < m.revision < 0x1_0000_0000_0000_0000 && 0 < |m.ops|
    && DeltaSize(m.ops) <= PAGE_PAYLOAD && AllOpsOk(m.ops) && OneEach(m.ops)
  }

  /** The delta that a payload is, if it is one. */
  ghost function DeltaIn(d: seq<Byte>): (m: Option<Msg>)
  {
    if |d| < DELTA_HEADER then None
    else
      var ops := OpsAt(d, Value(d[16..18]));
      if ops.None? then None
      else
        var m := Delta(Value(d[..8]), Value(d[8..16]), ops.value);
        if DeltaOk(m) && |d| == DeltaSize(ops.value) then Some(m) else None
  }

  lemma {:induction false} OpsSizeMin(ops: seq<Op>)
    ensures 5 * |ops| <= OpsSize(ops)
  {
    if ops != [] {
      OpsSizeMin(ops[..|ops| - 1]);
    }
  }

  lemma DeltaHeadMeans(d: seq<Byte>, m: Msg, k: nat)
    requires m.Delta? && m.base < 0x1_0000_0000_0000_0000 && m.revision < 0x1_0000_0000_0000_0000 && k < 0x1_0000
    requires |d| >= DELTA_HEADER
    ensures Occurs(d, 0, DeltaHead(m.base, m.revision, k)) <==>
      Value(d[..8]) == m.base && Value(d[8..16]) == m.revision && Value(d[16..18]) == k
  {
    hide Value, Number, Occurs;
    Widths();
    OccursParts(d, 8, Number(m.revision, 8), Number(k, 2));
    OccursParts(d, 0, Number(m.base, 8), Number(m.revision, 8) + Number(k, 2));
    OccursNumber(d, 0, m.base, 8);
    OccursNumber(d, 8, m.revision, 8);
    OccursNumber(d, 16, k, 2);
  }

  /** The payloads that are deltas are exactly the encodings of acceptable deltas. */
  lemma DeltaInMeans(d: seq<Byte>, m: Msg)
    ensures DeltaIn(d) == Some(m) <==> DeltaOk(m) && d == EncodeDelta(m)
  {
    hide Value, OpsAt, EncodeOps, DeltaHead, AllOpsOk, OneEach, OpsSize;
    if DeltaOk(m) && |d| == DeltaSize(m.ops) {
      OpsSizeMin(m.ops);
      DeltaHeadMeans(d, m, |m.ops|);
      OpsAtMeans(d, m.ops);
      OccursParts(d, 0, DeltaHead(m.base, m.revision, |m.ops|), EncodeOps(m.ops));
      OpsAtLength(d, Value(d[16..18]));
      assert d[0..|d|] == d;
    }
  }

  /** A delta is accepted exactly if it is the encoding of a delta within these limits; what a room may be is
   * said by PageLimits. */
  lemma DeltaLimits(d: seq<Byte>, m: Msg)
    ensures DeltaIn(d) == Some(m) <==>
      && m.Delta? && d == EncodeDelta(m) && |d| <= 60000 && m.base < m.revision < 0x1_0000_0000_0000_0000 && m.ops != []
      && (forall i, j :: 0 <= i < j < |m.ops| ==> IdOf(m.ops[i]) != IdOf(m.ops[j]))
      && (forall i :: 0 <= i < |m.ops| ==> if m.ops[i].Upsert? then ItemOk(m.ops[i].item) else 0 < m.ops[i].id < 0x1_0000_0000)
  {
    hide DeltaIn, EncodeOps, DeltaHead, ItemOk;
    DeltaInMeans(d, m);
  }

  // ---------------------------------------------------------------- the validator

  function OpIds(ops: seq<Op>): (s: set<nat>)
  {
    set i | 0 <= i < |ops| :: IdOf(ops[i])
  }

  lemma OneEachNext(ops: seq<Op>, op: Op)
    ensures OneEach(ops + [op]) <==> OneEach(ops) && IdOf(op) !in OpIds(ops)
    ensures OpIds(ops + [op]) == OpIds(ops) + {IdOf(op)}
  {
    var all := ops + [op];
    assert all[|ops|] == op;
    assert forall i :: 0 <= i < |ops| ==> all[i] == ops[i];
    if IdOf(op) in OpIds(ops) {
      var i :| 0 <= i < |ops| && IdOf(ops[i]) == IdOf(op);
      assert IdOf(all[i]) == IdOf(all[|ops|]);
    }
  }

  lemma OneEachPrefix(a: seq<Op>, b: seq<Op>)
    requires a <= b && !OneEach(a)
    ensures !OneEach(b)
  {
    var i, j :| 0 <= i < j < |a| && IdOf(a[i]) == IdOf(a[j]);
    assert IdOf(b[i]) == IdOf(b[j]);
  }

  ghost predicate DeltaBody(d: seq<Byte>, count: nat)
  {
    var ops := OpsAt(d, count);
    ops.Some? && OneEach(ops.value) && |d| == DeltaSize(ops.value)
  }

  lemma DeltaParts(d: seq<Byte>)
    ensures |d| >= DELTA_HEADER ==> d[0..8] == d[..8]
    ensures DeltaIn(d).Some? <==>
      && DELTA_HEADER <= |d| <= PAGE_PAYLOAD
      && Value(d[..8]) < Value(d[8..16]) && 0 < Value(d[16..18]) && DeltaBody(d, Value(d[16..18]))
    ensures DeltaIn(d).Some? ==>
      DeltaIn(d).value == Delta(Value(d[..8]), Value(d[8..16]), OpsAt(d, Value(d[16..18])).value)
  {
    hide Value, OpsAt, AllOpsOk, OneEach, OpsSize;
    if |d| >= DELTA_HEADER {
      Widths();
      NumberOfValue(d[8..16]);
      OpsAtLength(d, Value(d[16..18]));
    }
  }

  /** validateServerSignalPayload for MSG_ROOM_LIST_PUSH. */
  method ValidateDelta(d: seq<Byte>) returns (v: Verdict)
    ensures v.Valid? <==> DeltaIn(d).Some?
    ensures v.Malformed? ==> v.error != NoError
  {
    hide Value, OpAt, OpsAt, DeltaIn, DeltaBody;
    DeltaParts(d);
    if |d| > PAGE_PAYLOAD {
      return Malformed(InvalidValue, PAGE_PAYLOAD);
    }
    var cursor := new Cursor(d);
    var ok, baseRevision, revision, count := true, 0, 0, 0;
    ok, baseRevision := cursor.ReadNumber(8);
    if !ok {
      return Malformed(cursor.error, cursor.errorOffset);
    }
    ok, revision := cursor.ReadNumber(8);
    if !ok {
      return Malformed(cursor.error, cursor.errorOffset);
    }
    ok, count := cursor.ReadNumber(2);
    if !ok {
      return Malformed(cursor.error, cursor.errorOffset);
    }
    if revision == 0 || revision <= baseRevision || count == 0 {
      cursor.SetError(InvalidValue, 0);
      return Malformed(cursor.error, cursor.errorOffset);
    }
    v := ValidateOps(cursor, count);
  }

  /** The loop over the operations, and the check that nothing follows. */
  method ValidateOps(cursor: Cursor, count: nat) returns (v: Verdict)
    requires cursor.pos == DELTA_HEADER <= |cursor.data| && cursor.error == NoError
    modifies cursor
    ensures v.Valid? <==> DeltaBody(cursor.data, count)
    ensures v.Malformed? ==> v.error != NoError
  {
    hide OpAt, OpsAt, OpsSize, OneEach, OpIds;
    var roomIds: set<nat> := {};
    ghost var ops: seq<Op> := [];
    NoOps(cursor.data);
    for i := 0 to count
      invariant OpsAt(cursor.data, i) == Some(ops) && roomIds == OpIds(ops) && OneEach(ops)
      invariant cursor.Inside() && cursor.pos == DELTA_HEADER + OpsSize(ops) && cursor.error == NoError
    {
      OpsAtNext(cursor.data, i, ops);
      ghost var at := cursor.pos;
      var ok, roomId := ReadOperation(cursor);
      OpsAtPrefix(cursor.data, i + 1, count);
      if !ok {
        return Malformed(cursor.error, cursor.errorOffset);
      }
      ghost var op := OpAt(cursor.data, at).value;
      OneEachNext(ops, op);
      OpsSizeLast(ops, op);
      if roomId in roomIds {
        RepeatedOp(cursor.data, i + 1, count);
        cursor.SetError(InvalidValue, cursor.pos);
        return Malformed(cursor.error, cursor.errorOffset);
      }
      roomIds := roomIds + {roomId};
      ops := ops + [op];
    }
    var ok := cursor.Finish();
    v := if ok then Verdict.Valid else Malformed(cursor.error, cursor.errorOffset);
  }

  /** One operation: its kind, then a room or a room id that is not 0. */
  method ReadOperation(cursor: Cursor) returns (ok: bool, roomId: nat)
    requires cursor.Inside() && cursor.error == NoError
    modifies cursor
    ensures cursor.Inside() && (ok <==> OpAt(cursor.data, old(cursor.pos)).Some?)
    ensures ok ==>
      && cursor.pos == old(cursor.pos) + OpSize(OpAt(cursor.data, old(cursor.pos)).value)
      && roomId == IdOf(OpAt(cursor.data, old(cursor.pos)).value) && cursor.error == NoError
    ensures !ok ==> cursor.error != NoError
  {
    hide Value, ItemAt, ItemSize;
    roomId := 0;
    var operation := 0;
    ok, operation := cursor.ReadByte();
    if !ok {
      return;
    }
    if operation == UPSERT {
      ok, roomId := cursor.ReadRoomListItem();
    } else if operation == REMOVE {
      ok, roomId := cursor.ReadNumber(4);
      if ok && roomId == 0 {
        cursor.SetError(InvalidValue, cursor.pos - 4);
        ok := false;
      }
    } else {
      cursor.SetError(InvalidValue, cursor.pos - 1);
      ok := false;
    }
  }

  lemma NoOps(d: seq<Byte>)
    ensures OpsAt(d, 0) == Some([]) && OpIds([]) == {} && OneEach([]) && OpsSize([]) == 0
  {
  }

  lemma OpsAtNext(d: seq<Byte>, i: nat, ops: seq<Op>)
    requires OpsAt(d, i) == Some(ops)
    ensures var next := OpAt(d, DELTA_HEADER + OpsSize(ops)); OpsAt(d, i + 1) == if next.None? then None else Some(ops + [next.value])
  {
    hide OpAt;
  }

  lemma RepeatedOp(d: seq<Byte>, i: nat, count: nat)
    requires i <= count && OpsAt(d, i).Some? && !OneEach(OpsAt(d, i).value)
    ensures !DeltaBody(d, count)
  {
    hide OneEach, OpsAt;
    if OpsAt(d, count).Some? {
      OpsAtPrefix(d, i, count);
      OneEachPrefix(OpsAt(d, i).value, OpsAt(d, count).value);
    }
  }

  // ---------------------------------------------------------------- writing and reading

  /** The payload broadcastRoomListPush puts together. */
  method WriteDelta(baseRevision: nat, revision: nat, operations: seq<Op>) returns (d: seq<Byte>)
    requires AllOpsOk(operations)
    ensures d == EncodeDelta(Delta(baseRevision, revision, operations))
  {
    hide Number, EncodeOp, OpOk;
    var resp := new ByteBuffer([]);
    resp.WriteU64(baseRevision);
    resp.WriteU64(revision);
    resp.WriteU16(|operations|);
    DeltaHeadBytes(baseRevision, revision, |operations|);
    ghost var head := resp.data;
    assert head + [] == head && operations[..0] == [];
    for i := 0 to |operations|
      invariant resp.data == head + EncodeOps(operations[..i])
    {
      assert operations[..i + 1][..i] == operations[..i];
      WriteOperation(resp, operations[i]);
      Associates(head, EncodeOps(operations[..i]), EncodeOp(operations[i]));
    }
    assert operations[..|operations|] == operations;
    d := resp.data;
  }

  method WriteOperation(bb: ByteBuffer, op: Op)
    requires OpOk(op)
    modifies bb`data
    ensures bb.data == old(bb.data) + EncodeOp(op)
  {
    hide Number, EncodeItem, ItemOk;
    match op {
      case Upsert(item) =>
        bb.WriteU8(UPSERT);
        WriteRoomListItem(bb, item);
        Associates(old(bb.data), [UPSERT], EncodeItem(item));
      case Remove(id) =>
        bb.WriteU8(REMOVE);
        bb.WriteU32(id);
        Associates(old(bb.data), [REMOVE], Number(id, 4));
    }
  }

  lemma DeltaHeadBytes(base: nat, revision: nat, count: nat)
    ensures (([] + Number(base, 8)) + Number(revision, 8)) + Number(count, 2) == DeltaHead(base, revision, count)
  {
    hide Number;
    Associates(Number(base, 8), Number(revision, 8), Number(count, 2));
    assert [] + Number(base, 8) == Number(base, 8);
  }

  /** What the client reads from a payload; an accepted delta is read as it is. */
  method ReadDelta(d: seq<Byte>) returns (r: Option<Msg>)
    ensures DeltaIn(d).Some? ==> r == DeltaIn(d)
  {
    hide Value, OpAt, OpsAt, DeltaIn, DeltaBody;
    DeltaParts(d);
    var bb := new ByteBuffer(d);
    var baseRevision := bb.ReadNumber(8);
    if baseRevision.None? {
      return None;
    }
    var revision := bb.ReadNumber(8);
    if revision.None? {
      return None;
    }
    var count := bb.ReadNumber(2);
    if count.None? {
      return None;
    }
    BodyOps(d, count.value);
    var ops := ReadOps(bb, count.value);
    if ops.None? {
      return None;
    }
    r := Some(Delta(baseRevision.value, revision.value, ops.value));
  }

  lemma BodyOps(d: seq<Byte>, count: nat)
    ensures DeltaBody(d, count) ==> OpsAt(d, count).Some?
  {
  }

  method ReadOps(bb: ByteBuffer, count: nat) returns (r: Option<seq<Op>>)
    requires bb.Inside() && bb.readPos == DELTA_HEADER
    modifies bb`readPos
    ensures OpsAt(bb.data, count).Some? ==> r == OpsAt(bb.data, count)
  {
    hide OpAt, OpSize;
    ghost var good := OpsAt(bb.data, count).Some?;
    var ops: seq<Op> := [];
    for i := 0 to count
      invariant bb.Inside()
      invariant good ==> OpsAt(bb.data, i) == Some(ops) && bb.readPos == DELTA_HEADER + OpsSize(ops)
    {
      OpsAtPrefix(bb.data, i + 1, count);
      var op := ReadOp(bb);
      if op.None? {
        return None;
      }
      OpsSizeLast(ops, op.value);
      ops := ops + [op.value];
    }
    r := Some(ops);
  }

  /** The client takes every kind but UPSERT for a removal. */
  method ReadOp(bb: ByteBuffer) returns (r: Option<Op>)
    requires bb.Inside()
    modifies bb`readPos
    ensures bb.Inside()
    ensures OpAt(bb.data, old(bb.readPos)).Some? ==>
      r == OpAt(bb.data, old(bb.readPos)) && bb.readPos == old(bb.readPos) + OpSize(r.value)
  {
    hide Value, ItemAt, ItemSize;
    var operation := bb.ReadU8();
    if operation.None? {
      return None;
    }
    if operation.value == UPSERT {
      var info := bb.ReadRoomListItem();
      if info.None? {
        return None;
      }
      r := Some(Upsert(info.value));
    } else {
      var id := bb.ReadNumber(4);
      if id.None? {
        return None;
      }
      r := Some(Remove(id.value));
    }
  }

  // ---------------------------------------------------------------- from map to map

  ghost predicate HasId(items: seq<Item>, id: nat)
  {
    exists i :: 0 <= i < |items| && items[i].id == id
  }

  /** Every operation is acceptable and about one of the given rooms, and none about the same as another. */
  ghost predicate About(ops: seq<Op>, items: seq<Item>)
  {
    OneEach(ops) && forall k :: 0 <= k < |ops| ==> OpOk(ops[k]) && HasId(items, IdOf(ops[k]))
  }

  lemma NoneAbout(items: seq<Item>)
    ensures About([], items)
  {
  }

  /** The last of the rooms, and those before it. */
  lemma LastRoom(items: seq<Item>, m: Rooms)
    requires items != [] && From(items, m) && Ascending(items) && Publishable(m)
    ensures var init, item := items[..|items| - 1], items[|items| - 1];
      From(init, m) && Ascending(init) && ItemOk(item) && 0 < item.id < 0x1_0000_0000 && items == init + [item]
  {
    hide PolicyOk;
    var item := items[|items| - 1];
    assert ItemOk(Item(item.id, m[item.id]));
    assert item == Item(item.id, m[item.id]);
  }

  lemma {:induction false} UpsertsFit(items: seq<Item>, m: Rooms, published: Rooms)
    requires From(items, m) && Ascending(items) && Publishable(m)
    ensures About(Upserts(items, published), items)
  {
    hide ItemOk, About, From, Ascending, Publishable;
    if items == [] {
      NoneAbout(items);
    } else {
      var init, item := items[..|items| - 1], items[|items| - 1];
      LastRoom(items, m);
      UpsertsFit(init, m, published);
      AboutNext(Upserts(init, published), init, item, Upsert(item));
    }
  }

  lemma {:induction false} RemovesFit(items: seq<Item>, m: Rooms, current: Rooms)
    requires From(items, m) && Ascending(items) && Publishable(m)
    ensures About(Removes(items, current), items)
  {
    hide ItemOk, About, From, Ascending, Publishable;
    if items == [] {
      NoneAbout(items);
    } else {
      var init, item := items[..|items| - 1], items[|items| - 1];
      LastRoom(items, m);
      RemovesFit(init, m, current);
      AboutNext(Removes(init, current), init, item, Remove(item.id));
    }
  }

  ghost predicate Outside(ops: seq<Op>, current: Rooms)
  {
    forall k :: 0 <= k < |ops| ==> IdOf(ops[k]) !in current
  }

  lemma {:induction false} RemovesGone(items: seq<Item>, current: Rooms)
    ensures Outside(Removes(items, current), current)
  {
    hide Outside;
    if items == [] {
      OutsideNext([], current, 0);
    } else {
      RemovesGone(items[..|items| - 1], current);
      OutsideNext(Removes(items[..|items| - 1], current), current, items[|items| - 1].id);
    }
  }

  lemma OutsideNext(ops: seq<Op>, current: Rooms, id: nat)
    ensures Outside([], current)
    ensures Outside(ops, current) ==> Outside(ops + [], current) && (id !in current ==> Outside(ops + [Remove(id)], current))
  {
    assert ops + [] == ops;
  }

  lemma HasMore(items: seq<Item>, item: Item, id: nat)
    ensures HasId(items + [item], id) <==> HasId(items, id) || id == item.id
  {
    var all := items + [item];
    assert all[|items|] == item;
    assert forall i :: 0 <= i < |items| ==> all[i] == items[i];
    if HasId(items, id) {
      var i :| 0 <= i < |items| && items[i].id == id;
      assert all[i].id == id;
    }
  }

  lemma Unlisted(items: seq<Item>, item: Item)
    requires Ascending(items + [item])
    ensures !HasId(items, item.id)
  {
    var all := items + [item];
    assert all[|items|] == item;
    assert forall i :: 0 <= i < |items| ==> all[i] == items[i] && all[i].id < all[|items|].id;
  }

  /** One more room, with or without an operation about it. */
  lemma AboutNext(ops: seq<Op>, items: seq<Item>, item: Item, op: Op)
    requires About(ops, items) && Ascending(items + [item]) && OpOk(op) && IdOf(op) == item.id
    ensures About(ops + [op], items + [item]) && About(ops + [], items + [item])
  {
    hide OpOk, HasId, Ascending;
    Unlisted(items, item);
    HasMore(items, item, item.id);
    forall k | 0 <= k < |ops|
      ensures HasId(items + [item], IdOf(ops[k])) && IdOf(ops[k]) != item.id
    {
      HasMore(items, item, IdOf(ops[k]));
    }
    assert forall k :: 0 <= k < |ops| ==> (ops + [op])[k] == ops[k];
    assert (ops + [op])[|ops|] == op && ops + [] == ops;
  }

  lemma AboutListed(ops: seq<Op>, items: seq<Item>, m: Rooms)
    requires About(ops, items) && From(items, m)
    ensures OneEach(ops) && forall k :: 0 <= k < |ops| ==> OpOk(ops[k]) && IdOf(ops[k]) in m
  {
    hide OpOk;
    forall k | 0 <= k < |ops|
      ensures IdOf(ops[k]) in m
    {
      assert HasId(items, IdOf(ops[k]));
      var i :| 0 <= i < |items| && items[i].id == IdOf(ops[k]);
    }
  }

  /** The operations between two maps of valid rooms are acceptable, one for each room that differs. */
  lemma ChangesFit(published: Rooms, current: Rooms)
    requires Publishable(published) && Publishable(current)
    ensures AllOpsOk(Changes(published, current)) && OneEach(Changes(published, current))
  {
    hide Publishable, OpOk, About, OneEach, AllOpsOk, From, Ascending;
    var cur, was := Listing(current), Listing(published);
    ListingAscends(current);
    ListingAscends(published);
    UpsertsFit(cur, current, published);
    RemovesFit(was, published, current);
    AboutListed(Upserts(cur, published), cur, current);
    AboutListed(Removes(was, current), was, published);
    RemovesGone(was, current);
    Joined(Upserts(cur, published), Removes(was, current), current);
  }

  lemma Joined(a: seq<Op>, b: seq<Op>, current: Rooms)
    requires OneEach(a) && OneEach(b)
    requires forall k :: 0 <= k < |a| ==> OpOk(a[k]) && IdOf(a[k]) in current
    requires (forall k :: 0 <= k < |b| ==> OpOk(b[k])) && Outside(b, current)
    ensures AllOpsOk(a + b) && OneEach(a + b)
  {
    hide OpOk;
    var c := a + b;
    assert forall k :: 0 <= k < |c| ==> c[k] == if k < |a| then a[k] else b[k - |a|];
  }

  /** Every delta the server sends, between any two maps of valid rooms, is within its budget and is
   * accepted as exactly that delta; a client that holds the old rooms then holds the new ones. */
  lemma DeltaRebuilds(r: Replica, published: Rooms, current: Rooms, revision: nat)
    requires Listable(published) && Listable(current) && Publishable(published) && Publishable(current)
    requires published != current && revision + 1 < 0x1_0000_0000_0000_0000
    ensures var sent := Publish(Published(published, revision), current).1;
      && sent.Some? && sent.value.Delta?
      && |EncodeDelta(sent.value)| <= PAGE_PAYLOAD
      && DeltaIn(EncodeDelta(sent.value)) == sent
      && (r.revision == revision && r.cache == published ==>
            TakeDelta(r, sent.value).cache == current && TakeDelta(r, sent.value).revision == revision + 1)
  {
    hide Changes, OpsSize, AllOpsOk, OneEach, ApplyAll, DeltaIn, EncodeDelta, Publishable, Listable;
    NoChanges(published, current);
    DeltaFits(published, current);
    ChangesFit(published, current);
    ChangesApply(published, current);
    var m := Delta(revision, revision + 1, Changes(published, current));
    DeltaInMeans(EncodeDelta(m), m);
  }
}
