/**
 * The replicated room list: what the server publishes under a revision number, the pages and
 * deltas that carry it, and the changes that lead from one published state to the next.
 */
module RoomList {
  import opened Bytes
  import opened Collections

  type U16 = x: int | 0 <= x < 0x1_0000

  const PAGE_PAYLOAD: nat := 60000
  const PAGE_HEADER: nat := 14
  const DELTA_HEADER: nat := 18
  const MAX_ROOM_NAME: nat := 63
  /** The hard maximum of the --max-rooms option. */
  const MAX_ROOMS: nat := 128

  datatype Policy = Policy(mode: Byte, fec: Byte, profile: Byte)

  /** RoomListState without the room id, which is its key. */
  datatype RoomInfo = RoomInfo(name: seq<Byte>, players: Byte, maxPlayers: Byte, tcp: Policy, udp: Policy, password: Byte, mtu: U16)

  type Rooms = map<nat, RoomInfo>
  datatype Item = Item(id: nat, info: RoomInfo)
  datatype Op = Upsert(item: Item) | Remove(id: nat)

  ghost predicate Named(m: Rooms)
  {
    forall k :: k in m ==> |m[k].name| <= MAX_ROOM_NAME
  }

  ghost predicate Listable(m: Rooms)
  {
    |m| <= MAX_ROOMS && Named(m)
  }

  // ---------------------------------------------------------------- iteration in key order

  ghost function MinKey(s: set<nat>): (k: nat)
    requires s != {}
    ensures k in s && forall x :: x in s ==> k <= x
  {
    var x :| x in s;
    if s == {x} then x
    else
      var rest := s - {x};
      assert s == rest + {x};
      assert rest != {};
      var k := MinKey(rest);
      if x < k then x else k
  }

  /** The rooms in the order in which std::map yields them. */
  ghost function Listing(m: Rooms): (r: seq<Item>)
    ensures |r| == |m|
    decreases |m|
  {
    if m == map[] then []
    else
      assert m.Keys != {};
      var k := MinKey(m.Keys);
      Removed(m, k);
      [Item(k, m[k])] + Listing(m - {k})
  }

  lemma Removed(m: Rooms, k: nat)
    requires k in m
    ensures |m - {k}| == |m| - 1 && (m - {k}).Keys == m.Keys - {k}
  {
    assert (m - {k}).Keys == m.Keys - {k};
    assert |m.Keys - {k}| == |m.Keys| - 1;
    assert |(m - {k}).Keys| == |m - {k}|;
    assert |m.Keys| == |m|;
  }

  /** The room the iteration is at comes first in the listing of the rooms still to come. */
  lemma ListingNext(m: Rooms, k: nat)
    requires k in m && forall x :: x in m ==> k <= x
    ensures Listing(m) == [Item(k, m[k])] + Listing(m - {k})
  {
    assert m.Keys != {};
    assert MinKey(m.Keys) == k;
  }

  ghost predicate Ascending(items: seq<Item>)
  {
    forall i, j :: 0 <= i < j < |items| ==> items[i].id < items[j].id
  }

  ghost predicate From(items: seq<Item>, m: Rooms)
  {
    forall i :: 0 <= i < |items| ==> items[i].id in m && items[i].info == m[items[i].id]
  }

  lemma {:induction false} ListingAscends(m: Rooms)
    ensures Ascending(Listing(m)) && From(Listing(m), m)
    decreases |m|
  {
    if m != map[] {
      assert m.Keys != {};
      var k := MinKey(m.Keys);
      Removed(m, k);
      ListingAscends(m - {k});
      assert From(Listing(m - {k}), m - {k});
    }
  }

  function MapOf(items: seq<Item>): (m: Rooms)
  {
    if items == [] then map[] else MapOf(items[..|items| - 1])[items[|items| - 1].id := items[|items| - 1].info]
  }

  lemma {:induction false} MapOfIs(items: seq<Item>, m: Rooms)
    requires Ascending(items) && From(items, m)
    ensures forall k :: k in MapOf(items) ==> k in m && MapOf(items)[k] == m[k]
    ensures |MapOf(items)| == |items|
    ensures forall i :: 0 <= i < |items| ==> items[i].id in MapOf(items)
    ensures forall k :: k in MapOf(items) ==> items != [] && k <= items[|items| - 1].id
  {
    if items != [] {
      var init := items[..|items| - 1];
      MapOfIs(init, m);
      assert items[|items| - 1].id !in MapOf(init);
    }
  }

  /** The listing is the map. */
  lemma MapOfListing(m: Rooms)
    ensures MapOf(Listing(m)) == m
  {
    var items := Listing(m);
    ListingAscends(m);
    MapOfIs(items, m);
    var r := MapOf(items);
    assert r.Keys <= m.Keys;
    assert |r.Keys| == |r| && |m.Keys| == |m|;
    SameSet(r.Keys, m.Keys);
  }

  // ---------------------------------------------------------------- deltas

  function ApplyOp(m: Rooms, op: Op): Rooms
  {
    match op
    case Upsert(item) => m[item.id := item.info]
    case Remove(id) => m - {id}
  }

  function ApplyAll(m: Rooms, ops: seq<Op>): (r: Rooms)
  {
    if ops == [] then m else ApplyOp(ApplyAll(m, ops[..|ops| - 1]), ops[|ops| - 1])
  }

  predicate Has(m: Rooms, item: Item)
  {
    item.id in m && m[item.id] == item.info
  }

  /** New and changed rooms. */
  function Upserts(items: seq<Item>, published: Rooms): (ops: seq<Op>)
    ensures |ops| <= |items|
  {
    if items == [] then []
    else
      var item := items[|items| - 1];
      Upserts(items[..|items| - 1], published)
      + (if Has(published, item) then [] else [Upsert(item)])
  }

  /** Rooms that are gone. */
  function Removes(items: seq<Item>, current: Rooms): (ops: seq<Op>)
    ensures |ops| <= |items|
  {
    if items == [] then []
    else
      var item := items[|items| - 1];
      Removes(items[..|items| - 1], current) + (if item.id in current then [] else [Remove(item.id)])
  }

  ghost function Changes(published: Rooms, current: Rooms): (ops: seq<Op>)
  {
    Upserts(Listing(current), published) + Removes(Listing(published), current)
  }

  lemma {:induction false} ApplyTwo(m: Rooms, a: seq<Op>, b: seq<Op>)
    ensures ApplyAll(m, a + b) == ApplyAll(ApplyAll(m, a), b)
  {
    hide ApplyOp;
    if b == [] {
      assert a + b == a;
    } else {
      ApplyTwo(m, a, b[..|b| - 1]);
      assert (a + b)[..|a + b| - 1] == a + b[..|b| - 1];
    }
  }

  lemma ApplyLast(m: Rooms, ops: seq<Op>, op: Op)
    ensures ApplyAll(m, ops + [op]) == ApplyOp(ApplyAll(m, ops), op)
  {
    hide ApplyOp;
    assert (ops + [op])[..|ops|] == ops;
  }

  /** Upserts overlay the published rooms with the listed ones. */
  lemma {:induction false} UpsertsApply(items: seq<Item>, m: Rooms, published: Rooms)
    requires Ascending(items) && From(items, m)
    ensures ApplyAll(published, Upserts(items, published)) == published + MapOf(items)
  {
    hide ApplyAll;
    if items == [] {
      ApplyNone(published);
      assert published + map[] == published;
    } else {
      var init, item := items[..|items| - 1], items[|items| - 1];
      UpsertsApply(init, m, published);
      MapOfIs(init, m);
      assert item.id !in MapOf(init);
      UpsertsLast(items, published);
      hide Upserts, MapOf;
      ApplyLast(published, Upserts(init, published), Upsert(item));
      Overlay(published, MapOf(init), item.id, item.info);
    }
  }

  lemma UpsertsLast(items: seq<Item>, published: Rooms)
    requires items != []
    ensures var init, item := items[..|items| - 1], items[|items| - 1];
      && MapOf(items) == MapOf(init)[item.id := item.info]
      && Upserts(items, published) == if Has(published, item) then Upserts(init, published)
                                      else Upserts(init, published) + [Upsert(item)]
  {
  }

  lemma ApplyNone(m: Rooms)
    ensures ApplyAll(m, []) == m
  {
  }

  lemma Overlay(a: Rooms, b: Rooms, k: nat, v: RoomInfo)
    ensures (a + b)[k := v] == a + b[k := v]
    ensures k !in b && k in a && a[k] == v ==> a + b == a + b[k := v]
  {
  }

  ghost predicate Lists(items: seq<Item>, k: nat)
  {
    exists i :: 0 <= i < |items| && items[i].id == k
  }

  lemma ListsLast(items: seq<Item>, item: Item, k: nat)
    ensures Lists(items + [item], k) <==> item.id == k || Lists(items, k)
  {
    assert (items + [item])[|items|] == item;
    assert forall i :: 0 <= i < |items| ==> (items + [item])[i] == items[i];
  }

  lemma RemovesApply(items: seq<Item>, m: Rooms, current: Rooms)
    requires forall k :: k in m && k !in current ==> Lists(items, k)
    requires forall k :: k in current ==> k in m && m[k] == current[k]
    ensures ApplyAll(m, Removes(items, current)) == current
  {
    RemovesPart(items, m, current);
    var r := ApplyAll(m, Removes(items, current));
    assert forall k :: k in r <==> k in current;
  }

  lemma {:induction false} RemovesPart(items: seq<Item>, m: Rooms, current: Rooms)
    ensures var r := ApplyAll(m, Removes(items, current));
      && (forall k :: k in r <==> k in m && (k in current || !Lists(items, k)))
      && (forall k :: k in r ==> r[k] == m[k])
  {
    hide ApplyAll, Removes, Lists;
    if items == [] {
      NothingRemoved(m, current);
    } else {
      var init, item := items[..|items| - 1], items[|items| - 1];
      assert items == init + [item];
      RemovesPart(init, m, current);
      RemovesLast(items, m, current);
      forall k
        ensures Lists(items, k) <==> item.id == k || Lists(init, k)
      {
        ListsLast(init, item, k);
      }
    }
  }

  lemma NothingRemoved(m: Rooms, current: Rooms)
    ensures ApplyAll(m, Removes([], current)) == m
    ensures forall k :: !Lists([], k)
  {
  }

  lemma RemovesLast(items: seq<Item>, m: Rooms, current: Rooms)
    requires items != []
    ensures var init, item := items[..|items| - 1], items[|items| - 1];
      var before := ApplyAll(m, Removes(init, current));
      ApplyAll(m, Removes(items, current)) == if item.id in current then before else before - {item.id}
  {
    hide ApplyAll;
    var init, item := items[..|items| - 1], items[|items| - 1];
    ApplyLast(m, Removes(init, current), Remove(item.id));
    assert Removes(init, current) + [] == Removes(init, current);
  }

  /** A delta leads from the published rooms to the current ones. */
  lemma ChangesApply(published: Rooms, current: Rooms)
    ensures ApplyAll(published, Changes(published, current)) == current
  {
    hide ApplyAll, Listing;
    var cur, was := Listing(current), Listing(published);
    ListingAscends(current);
    ListingAscends(published);
    MapOfListing(current);
    UpsertsApply(cur, current, published);
    ApplyTwo(published, Upserts(cur, published), Removes(was, current));
    forall k | k in published
      ensures Lists(was, k)
    {
      InListing(published, k);
    }
    RemovesApply(was, published + current, current);
  }

  lemma {:induction false} InListing(m: Rooms, k: nat)
    requires k in m
    ensures Lists(Listing(m), k)
    decreases |m|
  {
    assert m.Keys != {};
    var f := MinKey(m.Keys);
    Removed(m, f);
    if k == f {
      assert Listing(m)[0].id == k;
    } else {
      InListing(m - {f}, k);
      var i :| 0 <= i < |Listing(m - {f})| && Listing(m - {f})[i].id == k;
      assert Listing(m)[i + 1].id == k;
    }
  }

  /** There is nothing to publish exactly when nothing has changed. */
  lemma NoChanges(published: Rooms, current: Rooms)
    ensures Changes(published, current) == [] <==> published == current
  {
    hide Listing;
    ChangesApply(published, current);
    if published == current {
      ListingAscends(current);
      NoUpserts(Listing(current), current);
      NoRemoves(Listing(current), current);
    } else {
      ApplyNone(published);
    }
  }

  /** A delta names only rooms that differ: an upsert carries a room as it now is and was not published, a
   * removal names a published room that is gone. */
  lemma ChangesNeeded(published: Rooms, current: Rooms, i: nat)
    requires i < |Changes(published, current)|
    ensures match Changes(published, current)[i]
      case Upsert(item) =>
        && item.id in current && current[item.id] == item.info
        && !(item.id in published && published[item.id] == item.info)
      case Remove(id) => id in published && id !in current
  {
    hide Listing, Upserts, Removes;
    ListingAscends(current);
    ListingAscends(published);
    var a := Upserts(Listing(current), published);
    if i < |a| {
      UpsertNeeded(Listing(current), current, published, i);
      assert Changes(published, current)[i] == a[i];
    } else {
      RemoveNeeded(Listing(published), published, current, i - |a|);
      assert Changes(published, current)[i] == Removes(Listing(published), current)[i - |a|];
    }
  }

  lemma {:induction false} UpsertNeeded(items: seq<Item>, m: Rooms, published: Rooms, i: nat)
    requires From(items, m) && i < |Upserts(items, published)|
    ensures var op := Upserts(items, published)[i];
      op.Upsert? && op.item.id in m && m[op.item.id] == op.item.info && !(op.item.id in published && published[op.item.id] == op.item.info)
  {
    var init := items[..|items| - 1];
    if i < |Upserts(init, published)| {
      UpsertNeeded(init, m, published, i);
    }
  }

  lemma {:induction false} RemoveNeeded(items: seq<Item>, m: Rooms, current: Rooms, i: nat)
    requires From(items, m) && i < |Removes(items, current)|
    ensures var op := Removes(items, current)[i]; op.Remove? && op.id in m && op.id !in current
  {
    var init := items[..|items| - 1];
    if i < |Removes(init, current)| {
      RemoveNeeded(init, m, current, i);
    }
  }

  lemma {:induction false} NoUpserts(items: seq<Item>, m: Rooms)
    requires From(items, m)
    ensures Upserts(items, m) == []
  {
    if items != [] {
      NoUpserts(items[..|items| - 1], m);
    }
  }

  lemma {:induction false} NoRemoves(items: seq<Item>, m: Rooms)
    requires From(items, m)
    ensures Removes(items, m) == []
  {
    if items != [] {
      NoRemoves(items[..|items| - 1], m);
    }
  }

  // ---------------------------------------------------------------- sizes

  function ItemSize(i: Item): nat
  {
    4 + 2 + |i.info.name| + 1 + 1 + 3 + 3 + 1 + 2
  }

  function OpSize(op: Op): nat
  {
    match op
    case Upsert(item) => 1 + ItemSize(item)
    case Remove(_) => 1 + 4
  }

  function OpsSize(ops: seq<Op>): (n: nat)
  {
    if ops == [] then 0 else OpsSize(ops[..|ops| - 1]) + OpSize(ops[|ops| - 1])
  }

  function DeltaSize(ops: seq<Op>): (n: nat)
  {
    DELTA_HEADER + OpsSize(ops)
  }

  lemma OpsSizeLast(ops: seq<Op>, op: Op)
    ensures OpsSize(ops + [op]) == OpsSize(ops) + OpSize(op)
  {
    assert (ops + [op])[..|ops|] == ops;
  }

  lemma {:induction false} UpsertsSize(items: seq<Item>, m: Rooms, published: Rooms)
    requires From(items, m) && Named(m)
    ensures OpsSize(Upserts(items, published)) <= 81 * |items|
  {
    if items != [] {
      var init, item := items[..|items| - 1], items[|items| - 1];
      UpsertsSize(init, m, published);
      OpsSizeLast(Upserts(init, published), Upsert(item));
      assert Upserts(init, published) + [] == Upserts(init, published);
    }
  }

  lemma {:induction false} RemovesSize(items: seq<Item>, current: Rooms)
    ensures OpsSize(Removes(items, current)) <= 5 * |items|
  {
    if items != [] {
      var init, item := items[..|items| - 1], items[|items| - 1];
      RemovesSize(init, current);
      OpsSizeLast(Removes(init, current), Remove(item.id));
      assert Removes(init, current) + [] == Removes(init, current);
    }
  }

  lemma {:induction false} OpsSizeAppend(a: seq<Op>, b: seq<Op>)
    ensures OpsSize(a + b) == OpsSize(a) + OpsSize(b)
  {
    if b == [] {
      assert a + b == a;
    } else {
      OpsSizeAppend(a, b[..|b| - 1]);
      assert (a + b)[..|a + b| - 1] == a + b[..|b| - 1];
    }
  }

  /** With at most 128 rooms and names of at most 63 bytes a delta always fits its budget. */
  lemma DeltaFits(published: Rooms, current: Rooms)
    requires Listable(published) && Listable(current)
    ensures DeltaSize(Changes(published, current)) <= PAGE_PAYLOAD
  {
    hide Listing, OpsSize, Upserts, Removes;
    ListingAscends(current);
    ListingAscends(published);
    UpsertsSize(Listing(current), current, published);
    RemovesSize(Listing(published), current);
    OpsSizeAppend(Upserts(Listing(current), published), Removes(Listing(published), current));
  }

  // ---------------------------------------------------------------- pages

  datatype Packing = Packing(done: seq<seq<Item>>, cur: seq<Item>)

  function ItemsSize(items: seq<Item>): (n: nat)
  {
    if items == [] then 0 else ItemsSize(items[..|items| - 1]) + ItemSize(items[|items| - 1])
  }

  function PutItem(p: Packing, i: Item): (r: Packing)
  {
    if p.cur != [] && PAGE_HEADER + ItemsSize(p.cur) + ItemSize(i) > PAGE_PAYLOAD
    then Packing(p.done + [p.cur], [i]) else Packing(p.done, p.cur + [i])
  }

  function PackItems(items: seq<Item>): (p: Packing)
  {
    if items == [] then Packing([], []) else PutItem(PackItems(items[..|items| - 1]), items[|items| - 1])
  }

  /** The pages of buildRoomListPages; an empty list is one empty page. */
  ghost function Pages(m: Rooms): (ps: seq<seq<Item>>)
    ensures |ps| > 0
  {
    var p := PackItems(Listing(m));
    p.done + [p.cur]
  }

  function FlatPages(ps: seq<seq<Item>>): (r: seq<Item>)
  {
    if ps == [] then [] else FlatPages(ps[..|ps| - 1]) + ps[|ps| - 1]
  }

  lemma FlatPagesAppend(ps: seq<seq<Item>>, p: seq<Item>)
    ensures FlatPages(ps + [p]) == FlatPages(ps) + p
  {
    assert (ps + [p])[..|ps|] == ps;
  }

  lemma ItemsSizeAppend(items: seq<Item>, i: Item)
    ensures ItemsSize(items + [i]) == ItemsSize(items) + ItemSize(i)
  {
    assert (items + [i])[..|items|] == items;
  }

  ghost predicate PageFits(p: seq<Item>)
  {
    PAGE_HEADER + ItemsSize(p) <= PAGE_PAYLOAD
  }

  ghost predicate PackedItems(p: Packing, items: seq<Item>)
  {
    && FlatPages(p.done) + p.cur == items && PageFits(p.cur)
    && (forall k :: 0 <= k < |p.done| ==> PageFits(p.done[k]) && p.done[k] != [])
    && (items != [] ==> p.cur != [])
  }

  lemma {:induction false} PackItemsIs(items: seq<Item>)
    requires forall i :: 0 <= i < |items| ==> PAGE_HEADER + ItemSize(items[i]) <= PAGE_PAYLOAD
    ensures PackedItems(PackItems(items), items)
  {
    if items != [] {
      var init, item := items[..|items| - 1], items[|items| - 1];
      PackItemsIs(init);
      PutItemIs(PackItems(init), init, item);
      assert init + [item] == items;
    }
  }

  lemma PutItemIs(p: Packing, items: seq<Item>, i: Item)
    requires PackedItems(p, items) && PAGE_HEADER + ItemSize(i) <= PAGE_PAYLOAD
    ensures PackedItems(PutItem(p, i), items + [i])
  {
    hide FlatPages, ItemSize;
    FlatPagesAppend(p.done, p.cur);
    ItemsSizeAppend(p.cur, i);
    ItemsSizeAppend([], i);
    assert [] + [i] == [i];
  }

  /** Pages carry every room once and in order, split no room, and respect the page budget. */
  lemma PagesPack(m: Rooms)
    requires Named(m)
    ensures FlatPages(Pages(m)) == Listing(m)
    ensures forall k :: 0 <= k < |Pages(m)| ==> PageFits(Pages(m)[k])
    ensures |Pages(m)| > 1 ==> forall k :: 0 <= k < |Pages(m)| ==> Pages(m)[k] != []
  {
    hide Listing, PackItems, FlatPages, ItemsSize;
    var items := Listing(m);
    ListingAscends(m);
    PackItemsIs(items);
    var p := PackItems(items);
    FlatPagesAppend(p.done, p.cur);
    if items == [] && p.done != [] {
      FlatNonempty(p.done);
    }
  }

  lemma FlatNonempty(ps: seq<seq<Item>>)
    requires ps != [] && ps[|ps| - 1] != []
    ensures FlatPages(ps) != []
  {
  }

  /** The rooms on the first n pages. */
  ghost function OnPages(m: Rooms, n: nat): (r: Rooms)
    requires n <= |Pages(m)|
  {
    MapOf(FlatPages(Pages(m)[..n]))
  }

  lemma OnAllPages(m: Rooms)
    requires Named(m)
    ensures OnPages(m, |Pages(m)|) == m
  {
    hide Pages;
    PagesPack(m);
    MapOfListing(m);
    assert Pages(m)[..|Pages(m)|] == Pages(m);
  }

  /** No room is repeated: the rooms of one page are not on the pages before it. */
  lemma NoRepeats(m: Rooms, n: nat, i: nat)
    requires Named(m)
    requires n < |Pages(m)| && i < |Pages(m)[n]|
    ensures Pages(m)[n][i].id !in MapOf(FlatPages(Pages(m)[..n]) + Pages(m)[n][..i])
    ensures MapOf(FlatPages(Pages(m)[..n]) + Pages(m)[n][..i + 1])
         == MapOf(FlatPages(Pages(m)[..n]) + Pages(m)[n][..i])[Pages(m)[n][i].id := Pages(m)[n][i].info]
  {
    hide Pages, Listing;
    var ps := Pages(m);
    var before, page := FlatPages(ps[..n]), ps[n];
    PagesPack(m);
    ListingAscends(m);
    FlatPrefix(ps, n);
    assert before + page <= Listing(m);
    var part := before + page[..i];
    assert part <= Listing(m) && Listing(m)[|part|] == page[i];
    assert Ascending(part) && From(part, m);
    MapOfIs(part, m);
    assert (before + page[..i + 1])[..|part|] == part && (before + page[..i + 1])[|part|] == page[i];
  }

  lemma {:induction false} FlatPrefix(ps: seq<seq<Item>>, n: nat)
    requires n < |ps|
    ensures FlatPages(ps[..n]) + ps[n] <= FlatPages(ps)
    ensures FlatPages(ps[..n]) + ps[n] == FlatPages(ps[..n + 1])
    decreases |ps|
  {
    assert ps[..n + 1][..n] == ps[..n];
    if n < |ps| - 1 {
      var init := ps[..|ps| - 1];
      FlatPrefix(init, n);
      assert init[..n] == ps[..n];
    } else {
      assert ps[..n + 1] == ps;
    }
  }
}
