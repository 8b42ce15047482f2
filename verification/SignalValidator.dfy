/**
 * The cursor of the message validator and its checks of a room-list page: a payload is accepted
 * exactly when it is the encoding of an acceptable page.
 */
module SignalValidator {
  import opened Bytes
  import opened Collections
  import opened Numbers
  import opened RoomList
  import opened RoomReplica
  import opened RoomWire

  datatype Error = NoError | Truncated | TrailingData | InvalidBoolean | InvalidCount | InvalidStringLength
    | InvalidPolicy | InvalidMtu | InvalidValue

  datatype Verdict = Valid | Malformed(error: Error, offset: nat)

  class Cursor {
    const data: seq<Byte>
    var pos: nat
    var error: Error
    var errorOffset: nat

    ghost predicate Inside()
      reads this
    {
      pos <= |data|
    }

    constructor (data: seq<Byte>)
      ensures this.data == data && pos == 0 && error == NoError
    {
      this.data, pos, error, errorOffset := data, 0, NoError, 0;
    }

    /** The first error stays. */
    method SetError(e: Error, offset: nat)
      requires e != NoError
      modifies this`error, this`errorOffset
      ensures error != NoError
      ensures old(error) == NoError ==> error == e && errorOffset == offset
      ensures old(error) != NoError ==> error == old(error) && errorOffset == old(errorOffset)
    {
      if error == NoError {
        error, errorOffset := e, offset;
      }
    }

    method Require(count: nat) returns (ok: bool)
      requires Inside()
      modifies this`error, this`errorOffset
      ensures ok <==> pos + count <= |data|
      ensures ok ==> error == old(error) && errorOffset == old(errorOffset)
      ensures !ok ==> error != NoError && (old(error) == NoError ==> error == Truncated && errorOffset == pos)
    {
      if count > |data| - pos {
        SetError(Truncated, pos);
        return false;
      }
      return true;
    }

    /** readU8, readU16, readU32 and readU64, which adds up its bytes in a loop. */
    method ReadNumber(width: nat) returns (ok: bool, value: nat)
      requires Inside()
      modifies this
      ensures Inside() && (ok <==> old(pos) + width <= |data|)
      ensures ok ==> pos == old(pos) + width && value == Value(data[old(pos)..pos]) && error == old(error)
      ensures !ok ==> error != NoError && (old(error) == NoError ==> error == Truncated && errorOffset == old(pos))
    {
      value := 0;
      ok := Require(width);
      if !ok {
        return;
      }
      assert data[pos..pos] == [];
      for i := 0 to width
        invariant value == Value(data[pos..pos + i])
        invariant pos == old(pos) && error == old(error)
      {
        assert data[pos..pos + i + 1][..i] == data[pos..pos + i];
        var next: int := data[pos + i];
        value := 256 * value + next;
      }
      pos := pos + width;
    }

    method ReadByte() returns (ok: bool, value: Byte)
      requires Inside()
      modifies this
      ensures Inside() && (ok <==> old(pos) < |data|)
      ensures ok ==> pos == old(pos) + 1 && value == data[old(pos)] && error == old(error)
      ensures !ok ==> error != NoError && (old(error) == NoError ==> error == Truncated && errorOffset == old(pos))
    {
      value := 0;
      ok := Require(1);
      if ok {
        value := data[pos];
        pos := pos + 1;
      }
    }

    /** readString without the alphanumeric check. */
    method ReadString(minLen: nat, maxLen: nat) returns (ok: bool)
      requires Inside()
      modifies this
      ensures Inside()
      ensures ok <==>
        && old(pos) + 2 <= |data|
        && minLen <= Value(data[old(pos)..old(pos) + 2]) <= maxLen
        && old(pos) + 2 + Value(data[old(pos)..old(pos) + 2]) <= |data|
      ensures ok ==> pos == old(pos) + 2 + Value(data[old(pos)..old(pos) + 2]) && error == old(error)
      ensures !ok ==> error != NoError
    {
      hide Value;
      var lengthOffset, length := pos, 0;
      ok, length := ReadNumber(2);
      if !ok {
        return;
      }
      if length < minLen || length > maxLen {
        SetError(InvalidStringLength, lengthOffset);
        return false;
      }
      ok := Require(length);
      if !ok {
        return;
      }
      pos := pos + length;
    }

    method ReadBoolean() returns (ok: bool)
      requires Inside()
      modifies this
      ensures Inside() && (ok <==> old(pos) < |data| && data[old(pos)] <= 1)
      ensures ok ==> pos == old(pos) + 1 && error == old(error)
      ensures !ok ==> error != NoError
    {
      var fieldOffset, value := pos, 0;
      ok, value := ReadByte();
      if ok && value > 1 {
        SetError(InvalidBoolean, fieldOffset);
        return false;
      }
    }

    method ReadPolicy() returns (ok: bool)
      requires Inside()
      modifies this
      ensures Inside()
      ensures ok <==> old(pos) + 3 <= |data| && PolicyOk(Policy(data[old(pos)], data[old(pos) + 1], data[old(pos) + 2]))
      ensures ok ==> pos == old(pos) + 3 && error == old(error)
      ensures !ok ==> error != NoError
    {
      var fieldOffset := pos;
      var transport, fec, profile := 0, 0, 0;
      ok, transport := ReadByte();
      if !ok {
        return;
      }
      ok, fec := ReadByte();
      if !ok {
        return;
      }
      ok, profile := ReadByte();
      if !ok {
        return;
      }
      if !(transport == 2 || transport == 3 || transport == 4)
         || !(fec == 0 || fec == 1 || fec == 2 || fec == 3 || fec == 4 || fec == 5 || fec == 6)
         || !(profile == 0 || profile == 1)
         || (transport == 3 && fec != 0) {
        SetError(InvalidPolicy, fieldOffset);
        return false;
      }
    }

    method ReadMtu() returns (ok: bool)
      requires Inside()
      modifies this
      ensures Inside() && (ok <==> old(pos) + 2 <= |data| && MtuOk(Value(data[old(pos)..old(pos) + 2])))
      ensures ok ==> pos == old(pos) + 2 && error == old(error)
      ensures !ok ==> error != NoError
    {
      hide Value;
      var fieldOffset, mtu := pos, 0;
      ok, mtu := ReadNumber(2);
      if ok && !(mtu == 1280 || mtu == 1400 || mtu == 1420) {
        SetError(InvalidMtu, fieldOffset);
        return false;
      }
    }

    /** The fields after the room name. */
    method ReadTail() returns (ok: bool, playerCount: Byte, maxPlayers: Byte)
      requires Inside()
      modifies this
      ensures Inside()
      ensures ok <==> old(pos) + 11 <= |data| && TailOk(data, old(pos))
      ensures ok ==>
        && pos == old(pos) + 11 && error == old(error)
        && playerCount == data[old(pos)] && maxPlayers == data[old(pos) + 1]
      ensures !ok ==> error != NoError
    {
      hide Value, PolicyOk, MtuOk;
      playerCount, maxPlayers := 0, 0;
      ok, playerCount := ReadByte();
      if !ok {
        return;
      }
      ok, maxPlayers := ReadByte();
      if !ok {
        return;
      }
      ok := ReadPolicy();
      if !ok {
        return;
      }
      ok := ReadPolicy();
      if !ok {
        return;
      }
      ok := ReadBoolean();
      if !ok {
        return;
      }
      ok := ReadMtu();
    }

    /** readRoomListItem succeeds exactly when an acceptable room stands at the cursor. */
    method ReadRoomListItem() returns (ok: bool, roomId: nat)
      requires Inside()
      modifies this
      ensures Inside() && (ok <==> ItemAt(data, old(pos)).Some?)
      ensures ok ==>
        && pos == old(pos) + ItemSize(ItemAt(data, old(pos)).value)
        && roomId == ItemAt(data, old(pos)).value.id && error == old(error)
      ensures !ok ==> error != NoError
    {
      hide Value, TailOk, ItemAt;
      roomId := 0;
      ghost var start := pos;
      var roomOffset := pos;
      ItemAtSteps(data, start);
      ok, roomId := ReadNumber(4);
      if !ok {
        return;
      }
      ok := ReadString(1, MAX_ROOM_NAME);
      if !ok {
        return;
      }
      var playerCount, maxPlayers := 0, 0;
      ok, playerCount, maxPlayers := ReadTail();
      if !ok {
        return;
      }
      if roomId == 0 || maxPlayers < 2 || maxPlayers as int > MAX_PLAYERS || playerCount > maxPlayers {
        SetError(InvalidValue, roomOffset);
        ok := false;
      }
    }

    method Finish() returns (ok: bool)
      requires Inside()
      modifies this`error, this`errorOffset
      ensures ok <==> old(error) == NoError && pos == |data|
      ensures !ok ==> error != NoError
    {
      if error != NoError {
        return false;
      }
      if pos != |data| {
        SetError(TrailingData, pos);
        return false;
      }
      return true;
    }
  }

  // ---------------------------------------------------------------- what the steps check

  predicate MtuOk(mtu: nat)
  {
    mtu == 1280 || mtu == 1400 || mtu == 1420
  }

  ghost predicate TailOk(d: seq<Byte>, t: nat)
    requires t + 11 <= |d|
  {
    && PolicyOk(Policy(d[t + 2], d[t + 3], d[t + 4])) && PolicyOk(Policy(d[t + 5], d[t + 6], d[t + 7]))
    && d[t + 8] <= 1 && MtuOk(Value(d[t + 9..t + 11]))
  }

  /** The checks of readRoomListItem in the order in which it makes them. */
  lemma ItemAtSteps(d: seq<Byte>, p: nat)
    ensures ItemAt(d, p).Some? <==>
      && p + 6 <= |d|
      && var n := Value(d[p + 4..p + 6]);
      && 1 <= n <= MAX_ROOM_NAME && p + 17 + n <= |d| && TailOk(d, p + 6 + n)
      && Value(d[p..p + 4]) != 0 && 2 <= d[p + 6 + n + 1] as int <= MAX_PLAYERS && d[p + 6 + n] <= d[p + 6 + n + 1]
    ensures ItemAt(d, p).Some? ==>
      ItemAt(d, p).value.id == Value(d[p..p + 4]) && ItemSize(ItemAt(d, p).value) == 17 + Value(d[p + 4..p + 6])
  {
    hide Value, PolicyOk;
    if p + 6 <= |d| {
      Widths();
      NumberOfValue(d[p..p + 4]);
    }
  }

  // ---------------------------------------------------------------- a room-list page

  function Ids(items: seq<Item>): (s: set<nat>)
  {
    set i | 0 <= i < |items| :: items[i].id
  }

  lemma DistinctNext(items: seq<Item>, item: Item)
    ensures Distinct(items + [item]) <==> Distinct(items) && item.id !in Ids(items)
    ensures Ids(items + [item]) == Ids(items) + {item.id}
  {
    var all := items + [item];
    assert all[|items|] == item;
    assert forall i :: 0 <= i < |items| ==> all[i] == items[i];
    if item.id in Ids(items) {
      var i :| 0 <= i < |items| && items[i].id == item.id;
      assert all[i].id == all[|items|].id;
    }
  }

  lemma DistinctPrefix(a: seq<Item>, b: seq<Item>)
    requires a <= b && !Distinct(a)
    ensures !Distinct(b)
  {
    var i, j :| 0 <= i < j < |a| && a[i].id == a[j].id;
    assert b[i].id == b[j].id;
  }

  /** validateServerSignalPayload for MSG_ROOM_LIST. */
  method ValidateRoomList(d: seq<Byte>) returns (v: Verdict)
    ensures v.Valid? <==> PageIn(d).Some?
    ensures v.Malformed? ==> v.error != NoError
  {
    hide Value, ItemAt, ItemsAt, PageIn, ItemSize;
    if |d| > PAGE_PAYLOAD {
      PageInHead(d);
      return Malformed(InvalidValue, PAGE_PAYLOAD);
    }
    var cursor := new Cursor(d);
    PageInHead(d);
    var ok, revision, pageIndex, pageCount, count := true, 0, 0, 0, 0;
    ok, revision := cursor.ReadNumber(8);
    if !ok {
      return Malformed(cursor.error, cursor.errorOffset);
    }
    ok, pageIndex := cursor.ReadNumber(2);
    if !ok {
      return Malformed(cursor.error, cursor.errorOffset);
    }
    ok, pageCount := cursor.ReadNumber(2);
    if !ok {
      return Malformed(cursor.error, cursor.errorOffset);
    }
    ok, count := cursor.ReadNumber(2);
    if !ok {
      return Malformed(cursor.error, cursor.errorOffset);
    }
    if revision == 0 || pageCount == 0 || pageIndex >= pageCount {
      cursor.SetError(InvalidValue, 0);
      return Malformed(cursor.error, cursor.errorOffset);
    }
    if count > (|d| - cursor.pos) / 18 {
      ItemsAtLength(d, PAGE_HEADER, count);
      cursor.SetError(InvalidCount, 12);
      return Malformed(cursor.error, cursor.errorOffset);
    }
    v := ValidateItems(cursor, count);
    PageInBody(d);
  }

  /** The loop over the rooms of a page, and the check that nothing follows. */
  method ValidateItems(cursor: Cursor, count: nat) returns (v: Verdict)
    requires cursor.pos == PAGE_HEADER <= |cursor.data| && cursor.error == NoError
    modifies cursor
    ensures v.Valid? <==> BodyOk(cursor.data, count)
    ensures v.Malformed? ==> v.error != NoError
  {
    hide ItemAt, ItemsAt, ItemSize, Distinct, Ids;
    var roomIds: set<nat> := {};
    ghost var items: seq<Item> := [];
    NoItems(cursor.data);
    for i := 0 to count
      invariant ItemsAt(cursor.data, PAGE_HEADER, i) == Some(items) && roomIds == Ids(items) && Distinct(items)
      invariant cursor.Inside() && cursor.pos == PAGE_HEADER + ItemsSize(items) && cursor.error == NoError
    {
      ItemsAtNext(cursor.data, i, items);
      ghost var at := cursor.pos;
      var ok, roomId := cursor.ReadRoomListItem();
      if !ok {
        ItemsAtFails(cursor.data, PAGE_HEADER, i + 1, count);
        return Malformed(cursor.error, cursor.errorOffset);
      }
      ghost var item := ItemAt(cursor.data, at).value;
      DistinctNext(items, item);
      ItemsSizeAppend(items, item);
      if roomId in roomIds {
        RepeatFails(cursor.data, i + 1, count);
        cursor.SetError(InvalidValue, cursor.pos);
        return Malformed(cursor.error, cursor.errorOffset);
      }
      roomIds := roomIds + {roomId};
      items := items + [item];
    }
    var ok := cursor.Finish();
    v := if ok then Valid else Malformed(cursor.error, cursor.errorOffset);
  }

  lemma NoItems(d: seq<Byte>)
    ensures ItemsAt(d, PAGE_HEADER, 0) == Some([]) && Ids([]) == {} && Distinct([]) && ItemsSize([]) == 0
  {
  }

  lemma ItemsAtNext(d: seq<Byte>, i: nat, items: seq<Item>)
    requires ItemsAt(d, PAGE_HEADER, i) == Some(items)
    ensures var next := ItemAt(d, PAGE_HEADER + ItemsSize(items));
      ItemsAt(d, PAGE_HEADER, i + 1) == if next.None? then None else Some(items + [next.value])
  {
    hide ItemAt;
  }

  lemma RepeatFails(d: seq<Byte>, i: nat, count: nat)
    requires i <= count && ItemsAt(d, PAGE_HEADER, i).Some? && !Distinct(ItemsAt(d, PAGE_HEADER, i).value)
    ensures !BodyOk(d, count)
  {
    hide Distinct, ItemsAt;
    if ItemsAt(d, PAGE_HEADER, count).Some? {
      ItemsAtPrefix(d, PAGE_HEADER, i, count);
      DistinctPrefix(ItemsAt(d, PAGE_HEADER, i).value, ItemsAt(d, PAGE_HEADER, count).value);
    }
  }

  ghost predicate BodyOk(d: seq<Byte>, count: nat)
  {
    var items := ItemsAt(d, PAGE_HEADER, count);
    items.Some? && Distinct(items.value) && |d| == PAGE_HEADER + ItemsSize(items.value)
  }

  lemma PageInHead(d: seq<Byte>)
    ensures PageIn(d).Some? ==>
      && PAGE_HEADER <= |d| <= PAGE_PAYLOAD
      && 0 < Value(d[..8]) && Value(d[8..10]) < Value(d[10..12])
      && BodyOk(d, Value(d[12..14]))
    ensures |d| >= PAGE_HEADER ==> d[0..8] == d[..8]
  {
    hide Value, ItemsAt, AllOk, Distinct;
  }

  lemma PageInBody(d: seq<Byte>)
    requires PAGE_HEADER <= |d| <= PAGE_PAYLOAD && 0 < Value(d[..8]) && Value(d[8..10]) < Value(d[10..12])
    ensures PageIn(d).Some? <==> BodyOk(d, Value(d[12..14]))
  {
    hide Value, ItemsAt, Distinct, ItemOk;
    var count := Value(d[12..14]);
    if BodyOk(d, count) {
      Widths();
      NumberOfValue(d[..8]);
      NumberOfValue(d[8..10]);
      NumberOfValue(d[10..12]);
      AllItemsOk(d, count);
    }
  }

  lemma {:induction false} AllItemsOk(d: seq<Byte>, k: nat)
    requires ItemsAt(d, PAGE_HEADER, k).Some?
    ensures AllOk(ItemsAt(d, PAGE_HEADER, k).value)
  {
    hide ItemOk, ItemAt;
    if k > 0 {
      AllItemsOk(d, k - 1);
      var before := ItemsAt(d, PAGE_HEADER, k - 1).value;
      OneItemOk(d, PAGE_HEADER + ItemsSize(before));
      AllOkLast(before, ItemAt(d, PAGE_HEADER + ItemsSize(before)).value);
    }
  }

  lemma OneItemOk(d: seq<Byte>, p: nat)
    ensures ItemAt(d, p).Some? ==> ItemOk(ItemAt(d, p).value)
  {
    hide ItemOk, Value;
  }
}
