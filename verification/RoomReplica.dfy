/**
 * Both ends of room-list replication: the publishing side of SignalServer, the replica kept by
 * CliSignalClient, and every run of the two over a FIFO channel that may drop any message.
 */
module RoomReplica {
  import opened Collections
  import opened RoomList

  datatype Msg =
    | Page(revision: nat, index: nat, count: nat, items: seq<Item>)
    | Delta(base: nat, revision: nat, ops: seq<Op>)

  // ---------------------------------------------------------------- the server side

  datatype Published = Published(rooms: Rooms, revision: nat)

  /** What broadcastRoomListPush does: the new published state, and the delta it sends. */
  ghost function Publish(p: Published, current: Rooms): (r: (Published, Option<Msg>))
  {
    var ops := Changes(p.rooms, current);
    if ops == [] then (p, None)
    else if DeltaSize(ops) > PAGE_PAYLOAD then (Published(p.rooms, p.revision + 1), None)
    else (Published(current, p.revision + 1), Some(Delta(p.revision, p.revision + 1, ops)))
  }

  /** The published rooms are the current ones after a broadcast if and only if there was nothing
   * to say or the delta fitted its budget. */
  lemma PublishMeets(p: Published, current: Rooms)
    ensures Publish(p, current).0.rooms == current <==> p.rooms == current || DeltaSize(Changes(p.rooms, current)) <= PAGE_PAYLOAD
  {
    hide Changes, DeltaSize;
    NoChanges(p.rooms, current);
  }

  class RoomPublisher {
    var published: Rooms
    var revision: nat

    constructor ()
      ensures published == map[] && revision == 1
    {
      published, revision := map[], 1;
    }

    method Smallest(left: Rooms) returns (k: nat)
      requires left != map[]
      ensures k in left && forall x :: x in left ==> k <= x
    {
      assert left.Keys != {};
      ghost var m := MinKey(left.Keys);
      k :| k in left && forall x :: x in left ==> k <= x;
    }

    method NewOrChanged(current: Rooms) returns (ops: seq<Op>)
      ensures ops == Upserts(Listing(current), published)
    {
      hide *;
      ops := [];
      var left := current;
      ghost var done: seq<Item> := [];
      NoneYet(published);
      while left != map[]
        invariant done + Listing(left) == Listing(current) && ops == Upserts(done, published)
        decreases |left|
      {
        var k := Smallest(left);
        ListingNext(left, k);
        Removed(left, k);
        var item := Item(k, left[k]);
        UpsertNext(done, item, published);
        if !Has(published, item) {
          ops := ops + [Upsert(item)];
        }
        assert ops == Upserts(done + [item], published);
        Associates(done, [item], Listing(left - {k}));
        done := done + [item];
        left := left - {k};
      }
      ListingEmpty();
      assert done + [] == done;
    }

    method Gone(current: Rooms) returns (ops: seq<Op>)
      ensures ops == Removes(Listing(published), current)
    {
      hide Removes, Listing;
      ops := [];
      var left := published;
      ghost var done: seq<Item> := [];
      NoneYet(current);
      while left != map[]
        invariant done + Listing(left) == Listing(published) && ops == Removes(done, current)
        decreases |left|
      {
        var k := Smallest(left);
        ListingNext(left, k);
        Removed(left, k);
        ghost var item := Item(k, left[k]);
        RemoveNext(done, item, current);
        if k !in current {
          ops := ops + [Remove(k)];
        }
        Associates(done, [item], Listing(left - {k}));
        done := done + [item];
        left := left - {k};
      }
      ListingEmpty();
      assert done + [] == done;
    }

    /** broadcastRoomListPush, for the rooms collectRoomListState returns. */
    method Broadcast(current: Rooms) returns (msg: Option<Msg>)
      modifies this
      ensures (Published(published, revision), msg) == Publish(old(Published(published, revision)), current)
    {
      hide Upserts, Removes, Listing;
      var upserts := NewOrChanged(current);
      var removes := Gone(current);
      var operations := upserts + removes;
      if operations == [] {
        return None;
      }
      var baseRevision := revision;
      revision := revision + 1;
      var size := DELTA_HEADER;
      for i := 0 to |operations|
        invariant size == DELTA_HEADER + OpsSize(operations[..i])
        invariant published == old(published) && revision == baseRevision + 1
      {
        assert operations[..i + 1] == operations[..i] + [operations[i]];
        OpsSizeLast(operations[..i], operations[i]);
        size := size + OpSize(operations[i]);
      }
      assert operations[..|operations|] == operations;
      if size > PAGE_PAYLOAD {
        return None;
      }
      published := current;
      return Some(Delta(baseRevision, revision, operations));
    }

    /** buildRoomListPages and the sends of onListRooms. */
    method ListRooms(current: Rooms) returns (msgs: seq<Msg>)
      ensures |msgs| == |Pages(current)|
      ensures forall k :: 0 <= k < |msgs| ==> msgs[k] == Page(revision, k, |Pages(current)|, Pages(current)[k])
    {
      hide Listing, PackItems, ItemsSize;
      var packed: seq<seq<Item>>, page: seq<Item>, size := [], [], PAGE_HEADER;
      var left := current;
      ghost var done: seq<Item> := [];
      NothingPacked();
      while left != map[]
        invariant done + Listing(left) == Listing(current)
        invariant PackItems(done) == Packing(packed, page) && size == PAGE_HEADER + ItemsSize(page)
        decreases |left|
      {
        var k := Smallest(left);
        ListingNext(left, k);
        Removed(left, k);
        var item := Item(k, left[k]);
        PackNext(done, item);
        ItemsSizeAppend(page, item);
        ItemsSizeAppend([], item);
        assert [] + [item] == [item];
        if page != [] && size + ItemSize(item) > PAGE_PAYLOAD {
          packed := packed + [page];
          page, size := [], PAGE_HEADER;
        }
        page := page + [item];
        size := size + ItemSize(item);
        Associates(done, [item], Listing(left - {k}));
        done := done + [item];
        left := left - {k};
      }
      ListingEmpty();
      assert done + [] == done;
      packed := packed + [page];
      msgs := [];
      for i := 0 to |packed|
        invariant |msgs| == i
        invariant forall k :: 0 <= k < i ==> msgs[k] == Page(revision, k, |packed|, packed[k])
      {
        msgs := msgs + [Page(revision, i, |packed|, packed[i])];
      }
    }
  }

  lemma NoneYet(m: Rooms)
    ensures Upserts([], m) == [] && Removes([], m) == []
  {
  }

  lemma ListingEmpty()
    ensures Listing(map[]) == []
  {
  }

  lemma NothingPacked()
    ensures PackItems([]) == Packing([], []) && ItemsSize([]) == 0
  {
  }

  lemma PackNext(items: seq<Item>, item: Item)
    ensures PackItems(items + [item]) == PutItem(PackItems(items), item)
  {
    hide PutItem;
    assert (items + [item])[..|items|] == items;
  }

  lemma UpsertNext(items: seq<Item>, item: Item, m: Rooms)
    ensures Upserts(items + [item], m) ==
      if Has(m, item) then Upserts(items, m) else Upserts(items, m) + [Upsert(item)]
  {
    assert (items + [item])[..|items|] == items;
  }

  lemma RemoveNext(items: seq<Item>, item: Item, m: Rooms)
    ensures Removes(items + [item], m) == if item.id in m then Removes(items, m) else Removes(items, m) + [Remove(item.id)]
  {
    assert (items + [item])[..|items|] == items;
  }

  // ---------------------------------------------------------------- the client side

  /** m_roomListRevision, m_roomListCache and the snapshot being put together. */
  datatype Replica = Replica(revision: nat, cache: Rooms, snapRevision: nat, snapCount: nat, snapNext: nat, snapRooms: Rooms)

  function Blank(): Replica
  {
    Replica(0, map[], 0, 0, 0, map[])
  }

  function DropSnapshot(r: Replica): Replica
  {
    r.(snapRevision := 0, snapCount := 0, snapNext := 0, snapRooms := map[])
  }

  function AddItems(m: Rooms, items: seq<Item>): (r: Option<Rooms>)
  {
    if items == [] then Some(m)
    else
      var before := AddItems(m, items[..|items| - 1]);
      var item := items[|items| - 1];
      if before.None? || item.id in before.value then None else Some(before.value[item.id := item.info])
  }

  /** Page 0 starts a new snapshot. */
  function StartSnapshot(r: Replica, m: Msg): (s: Replica)
    requires m.Page?
  {
    if m.index == 0 then r.(snapRooms := map[], snapRevision := m.revision, snapCount := m.count, snapNext := 0) else r
  }

  /** A page that does not continue the snapshot, or repeats a room. */
  predicate PageRejected(r: Replica, m: Msg)
    requires m.Page?
  {
    var s := StartSnapshot(r, m);
    m.revision != s.snapRevision || m.count != s.snapCount || m.index != s.snapNext || AddItems(s.snapRooms, m.items).None?
  }

  /** The case MSG_ROOM_LIST of processMessage. */
  function TakePage(r: Replica, m: Msg): (n: Replica)
    requires m.Page?
  {
    var s := StartSnapshot(r, m);
    if PageRejected(r, m) then DropSnapshot(s)
    else
      var rooms := AddItems(s.snapRooms, m.items).value;
      if s.snapNext + 1 == s.snapCount then DropSnapshot(s.(cache := rooms, revision := s.snapRevision))
      else s.(snapRooms := rooms, snapNext := s.snapNext + 1)
  }

  /** The case MSG_ROOM_LIST_PUSH. */
  function TakeDelta(r: Replica, m: Msg): (n: Replica)
    requires m.Delta?
  {
    if m.base != r.revision then DropSnapshot(r)
    else r.(cache := ApplyAll(r.cache, m.ops), revision := m.revision)
  }

  function Take(r: Replica, m: Msg): (n: Replica)
  {
    if m.Page? then TakePage(r, m) else TakeDelta(r, m)
  }

  class RoomListClient {
    var revision: nat
    var cache: Rooms
    var snapRevision: nat
    var snapCount: nat
    var snapNext: nat
    var snapRooms: Rooms

    ghost function State(): Replica
      reads this
    {
      Replica(revision, cache, snapRevision, snapCount, snapNext, snapRooms)
    }

    constructor ()
      ensures State() == Blank()
    {
      revision, cache, snapRevision, snapCount, snapNext, snapRooms := 0, map[], 0, 0, 0, map[];
    }

    /** resetRoomListState */
    method Reset()
      modifies this
      ensures State() == Blank()
    {
      revision, snapRevision, snapCount, snapNext := 0, 0, 0, 0;
      cache, snapRooms := map[], map[];
    }

    method ClearSnapshot()
      modifies this
      ensures State() == DropSnapshot(old(State()))
    {
      snapRooms, snapRevision, snapCount, snapNext := map[], 0, 0, 0;
    }

    /** MSG_ROOM_LIST; relist says that the client asks for the whole list again. */
    method OnPage(m: Msg) returns (relist: bool)
      requires m.Page?
      modifies this
      ensures State() == TakePage(old(State()), m) && relist == PageRejected(old(State()), m)
      ensures m.index != 0 && (m.revision != old(snapRevision) || m.count != old(snapCount) || m.index != old(snapNext)) ==> relist
      ensures relist || m.index + 1 != m.count ==> cache == old(cache) && revision == old(revision)
      ensures relist || m.index + 1 == m.count ==> snapRooms == map[] && snapRevision == 0 && snapCount == 0 && snapNext == 0
      ensures !relist ==> if m.index + 1 == m.count then revision == m.revision else snapRevision == m.revision && snapNext == m.index + 1
    {
      hide AddItems;
      if m.index == 0 {
        snapRooms, snapRevision, snapCount, snapNext := map[], m.revision, m.count, 0;
      }
      if m.revision != snapRevision || m.count != snapCount || m.index != snapNext {
        ClearSnapshot();
        return true;
      }
      ghost var start, at := snapRooms, State();
      AddNone(start);
      assert m.items[..0] == [];
      for i := 0 to |m.items|
        invariant State() == at.(snapRooms := snapRooms) && AddItems(start, m.items[..i]) == Some(snapRooms)
      {
        var info := m.items[i];
        AddNext(start, m.items, i);
        if info.id in snapRooms {
          AddFails(start, m.items, i + 1);
          ClearSnapshot();
          return true;
        }
        snapRooms := snapRooms[info.id := info.info];
      }
      assert m.items[..|m.items|] == m.items;
      snapNext := snapNext + 1;
      if snapNext == snapCount {
        cache := snapRooms;
        revision := snapRevision;
        ClearSnapshot();
      }
      return false;
    }

    /** MSG_ROOM_LIST_PUSH */
    method OnPush(m: Msg) returns (relist: bool)
      requires m.Delta?
      modifies this
      ensures State() == TakeDelta(old(State()), m) && relist == (m.base != old(revision))
      ensures relist ==> cache == old(cache) && revision == old(revision) && snapRooms == map[] && snapNext == 0
      ensures !relist ==> revision == m.revision
    {
      if m.base != revision {
        ClearSnapshot();
        return true;
      }
      var updated := cache;
      assert m.ops[..0] == [];
      for i := 0 to |m.ops|
        invariant updated == ApplyAll(cache, m.ops[..i]) && State() == old(State())
      {
        assert m.ops[..i + 1] == m.ops[..i] + [m.ops[i]];
        ApplyLast(cache, m.ops[..i], m.ops[i]);
        match m.ops[i] {
          case Upsert(info) => updated := updated[info.id := info.info];
          case Remove(id) => updated := updated - {id};
        }
      }
      assert m.ops[..|m.ops|] == m.ops;
      cache := updated;
      revision := m.revision;
      return false;
    }
  }

  lemma AddNone(m: Rooms)
    ensures AddItems(m, []) == Some(m)
  {
  }

  lemma AddNext(m: Rooms, items: seq<Item>, i: nat)
    requires i < |items|
    ensures AddItems(m, items[..i + 1]) ==
      var before := AddItems(m, items[..i]);
      if before.None? || items[i].id in before.value then None else Some(before.value[items[i].id := items[i].info])
  {
    assert items[..i + 1][..i] == items[..i];
  }

  lemma {:induction false} AddFails(m: Rooms, items: seq<Item>, i: nat)
    requires i <= |items| && AddItems(m, items[..i]).None?
    ensures AddItems(m, items).None?
    decreases |items| - i
  {
    if i == |items| {
      assert items[..i] == items;
    } else {
      AddNext(m, items, i);
      AddFails(m, items, i + 1);
    }
  }
}
