/**
 * Room-list pages from the server's map to the client's: the byte buffer that writes and reads
 * them, and the proof that the pages of any map of valid rooms are accepted and rebuild that map.
 */
module RoomPages {
  import opened Bytes
  import opened Collections
  import opened Numbers
  import opened RoomList
  import opened RoomReplica
  import opened RoomWire
  import R = RoomReplication

  // ---------------------------------------------------------------- the byte buffer

  class ByteBuffer {
    var data: seq<Byte>
    var readPos: nat

    ghost predicate Inside()
      reads this
    {
      readPos <= |data|
    }

    constructor (data: seq<Byte>)
      ensures this.data == data && readPos == 0
    {
      this.data, readPos := data, 0;
    }

    method WriteU8(v: Byte)
      modifies this`data
      ensures data == old(data) + [v]
    {
      data := data + [v];
    }

    method WriteU16(v: nat)
      modifies this`data
      ensures data == old(data) + Number(v, 2)
    {
      hide Number, Shift;
      NoShift(v);
      ShiftNext(v, 0, 1);
      ShiftNext(v, 1, 0);
      ShiftNext(v, 2, 0);
      data := data + [Shift(v, 1) % 256];
      data := data + [Shift(v, 0) % 256];
    }

    method WriteU32(v: nat)
      modifies this`data
      ensures data == old(data) + Number(v, 4)
    {
      hide Number, Shift;
      NoShift(v);
      ShiftNext(v, 0, 3);
      ShiftNext(v, 1, 2);
      ShiftNext(v, 2, 1);
      ShiftNext(v, 3, 0);
      ShiftNext(v, 4, 0);
      data := data + [Shift(v, 3) % 256];
      data := data + [Shift(v, 2) % 256];
      data := data + [Shift(v, 1) % 256];
      data := data + [Shift(v, 0) % 256];
    }

    /** The loop over the shifts 56, 48, ..., 0. */
    method WriteU64(v: nat)
      modifies this`data
      ensures data == old(data) + Number(v, 8)
    {
      hide Shift;
      assert data + [] == data;
      for k: nat := 8 downto 0
        invariant data == old(data) + Number(Shift(v, k), 8 - k)
      {
        ShiftNext(v, k, 7 - k);
        data := data + [Shift(v, k) % 256];
      }
      NoShift(v);
    }

    method WriteString(s: seq<Byte>)
      modifies this`data
      ensures data == old(data) + Number(|s|, 2) + s
    {
      hide Number;
      WriteU16(|s|);
      data := data + s;
    }

    /** readU8 to readU64; the exception is a failed read. */
    method ReadNumber(width: nat) returns (r: Option<nat>)
      requires Inside()
      modifies this`readPos
      ensures Inside() && (r.None? <==> old(readPos) + width > |data|)
      ensures r.Some? ==> readPos == old(readPos) + width && r.value == Value(data[old(readPos)..readPos])
    {
      if width > |data| - readPos {
        return None;
      }
      var v := 0;
      assert data[readPos..readPos] == [];
      for i := 0 to width
        invariant v == Value(data[readPos..readPos + i]) && readPos == old(readPos)
      {
        assert data[readPos..readPos + i + 1][..i] == data[readPos..readPos + i];
        var next: int := data[readPos + i];
        v := 256 * v + next;
      }
      readPos := readPos + width;
      r := Some(v);
    }

    method ReadU8() returns (r: Option<Byte>)
      requires Inside()
      modifies this`readPos
      ensures Inside() && (r.None? <==> old(readPos) == |data|)
      ensures r.Some? ==> readPos == old(readPos) + 1 && r.value == data[old(readPos)]
    {
      if readPos == |data| {
        return None;
      }
      r := Some(data[readPos]);
      readPos := readPos + 1;
    }

    method ReadString() returns (r: Option<seq<Byte>>)
      requires Inside()
      modifies this`readPos
      ensures Inside()
      ensures r.None? <==>
        old(readPos) + 2 > |data| || old(readPos) + 2 + Value(data[old(readPos)..old(readPos) + 2]) > |data|
      ensures r.Some? ==>
        && readPos == old(readPos) + 2 + Value(data[old(readPos)..old(readPos) + 2])
        && r.value == data[old(readPos) + 2..readPos]
    {
      hide Value;
      var length := ReadNumber(2);
      if length.None? || length.value > |data| - readPos {
        return None;
      }
      r := Some(data[readPos..readPos + length.value]);
      readPos := readPos + length.value;
    }

    /** readTrafficPolicy: three bytes, made valid. */
    method ReadTrafficPolicy(fallback: Policy) returns (r: Option<Policy>)
      requires Inside()
      modifies this`readPos
      ensures Inside() && (r.None? <==> old(readPos) + 3 > |data|)
      ensures r.Some? ==>
        && readPos == old(readPos) + 3
        && r.value == Normalized(Policy(data[old(readPos)], data[old(readPos) + 1], data[old(readPos) + 2]), fallback)
    {
      hide Normalized;
      var a := ReadU8();
      if a.None? {
        return None;
      }
      var b := ReadU8();
      if b.None? {
        return None;
      }
      var c := ReadU8();
      if c.None? {
        return None;
      }
      r := Some(Normalized(Policy(a.value, b.value, c.value), fallback));
    }

    /** The fields after the name. */
    method ReadTail(name: seq<Byte>) returns (r: Option<RoomInfo>)
      requires Inside()
      modifies this`readPos
      ensures Inside() && (r.None? <==> old(readPos) + 11 > |data|)
      ensures r.Some? ==> readPos == old(readPos) + 11 && r.value == NormalizedInfo(TailAt(data, old(readPos), name))
    {
      hide Value, Normalized;
      var players := ReadU8();
      if players.None? {
        return None;
      }
      var maxPlayers := ReadU8();
      if maxPlayers.None? {
        return None;
      }
      var tcp := ReadTrafficPolicy(TCP_DEFAULT);
      if tcp.None? {
        return None;
      }
      var udp := ReadTrafficPolicy(UDP_DEFAULT);
      if udp.None? {
        return None;
      }
      var password := ReadU8();
      if password.None? {
        return None;
      }
      var mtu := ReadNumber(2);
      if mtu.None? {
        return None;
      }
      Widths();
      NumberOfValue(data[old(readPos) + 9..old(readPos) + 11]);
      r := Some(RoomInfo(name, players.value, maxPlayers.value, tcp.value, udp.value, password.value, mtu.value));
    }

    /** readRoomListItem of the client; an acceptable room is read as it is. */
    method ReadRoomListItem() returns (r: Option<Item>)
      requires Inside()
      modifies this`readPos
      ensures Inside()
      ensures ItemAt(data, old(readPos)).Some? ==>
        r == ItemAt(data, old(readPos)) && readPos == old(readPos) + ItemSize(r.value)
    {
      hide Value, TailAt, ItemOk, Normalized, NormalizedInfo;
      var id := ReadNumber(4);
      if id.None? {
        return None;
      }
      var name := ReadString();
      if name.None? {
        return None;
      }
      var info := ReadTail(name.value);
      if info.None? {
        return None;
      }
      StaysNormal(data, old(readPos));
      r := Some(Item(id.value, info.value));
    }
  }

  const TCP_DEFAULT: Policy := Policy(4, 0, 0)
  const UDP_DEFAULT: Policy := Policy(2, 0, 0)

  /** normalizeTrafficPolicy */
  function Normalized(p: Policy, fallback: Policy): (r: Policy)
  {
    var mode := if p.mode == 2 || p.mode == 3 || p.mode == 4 then p.mode else fallback.mode;
    var fec := if mode == 3 || p.fec > 6 then 0 else p.fec;
    Policy(mode, fec, if p.profile <= 1 then p.profile else 0)
  }

  function NormalizedInfo(i: RoomInfo): RoomInfo
  {
    i.(tcp := Normalized(i.tcp, TCP_DEFAULT), udp := Normalized(i.udp, UDP_DEFAULT))
  }

  /** Making an acceptable room valid does not change it. */
  lemma StaysNormal(d: seq<Byte>, p: nat)
    ensures ItemAt(d, p).Some? ==> NormalizedInfo(ItemAt(d, p).value.info) == ItemAt(d, p).value.info
  {
    hide Value;
  }

  /** v shifted right by k bytes. */
  function Shift(v: nat, k: nat): (r: nat)
  {
    if k == 0 then v else Shift(v, k - 1) / 256
  }

  lemma NoShift(v: nat)
    ensures Shift(v, 0) == v
  {
  }

  lemma ShiftNext(v: nat, k: nat, n: nat)
    ensures Number(Shift(v, k), n + 1) == Number(Shift(v, k + 1), n) + [Shift(v, k) % 256]
    ensures Number(Shift(v, k), 0) == []
  {
  }

  // ---------------------------------------------------------------- writing and reading a page

  /** writeRoomListItem */
  method WriteRoomListItem(bb: ByteBuffer, i: Item)
    requires ItemOk(i)
    modifies bb`data
    ensures bb.data == old(bb.data) + EncodeItem(i)
  {
    hide Number, ItemOk, PolicyOk;
    bb.WriteU32(i.id);
    bb.WriteString(i.info.name);
    bb.WriteU8(i.info.players);
    bb.WriteU8(i.info.maxPlayers);
    bb.WriteU8(i.info.tcp.mode);
    bb.WriteU8(i.info.tcp.fec);
    bb.WriteU8(i.info.tcp.profile);
    bb.WriteU8(i.info.udp.mode);
    bb.WriteU8(i.info.udp.fec);
    bb.WriteU8(i.info.udp.profile);
    bb.WriteU8(i.info.password);
    bb.WriteU16(i.info.mtu);
    ItemBytes(old(bb.data), i);
  }

  lemma ItemBytes(a: seq<Byte>, i: Item)
    ensures var f := i.info;
      (((((((((((a + Number(i.id, 4)) + Number(|f.name|, 2) + f.name) + [f.players]) + [f.maxPlayers]) + [f.tcp.mode]) + [f.tcp.fec])
        + [f.tcp.profile]) + [f.udp.mode]) + [f.udp.fec]) + [f.udp.profile]) + [f.password]) + Number(f.mtu, 2)
      == a + EncodeItem(i)
  {
    hide Number;
  }

  /** The payload of one page, as buildRoomListPages puts it together. */
  method WritePage(revision: nat, pageIndex: nat, pageCount: nat, records: seq<Item>) returns (d: seq<Byte>)
    requires PageOk(Page(revision, pageIndex, pageCount, records))
    ensures d == EncodePage(Page(revision, pageIndex, pageCount, records))
  {
    hide Number, EncodeItem, ItemOk, Distinct;
    var page := new ByteBuffer([]);
    page.WriteU64(revision);
    page.WriteU16(pageIndex);
    page.WriteU16(pageCount);
    page.WriteU16(|records|);
    HeadBytes(revision, pageIndex, pageCount, |records|);
    ghost var head := page.data;
    assert head + [] == head && records[..0] == [];
    for i := 0 to |records|
      invariant page.data == head + EncodeItems(records[..i])
    {
      assert records[..i + 1][..i] == records[..i];
      WriteRoomListItem(page, records[i]);
      Associates(head, EncodeItems(records[..i]), EncodeItem(records[i]));
    }
    assert records[..|records|] == records;
    d := page.data;
  }

  lemma HeadBytes(revision: nat, index: nat, pages: nat, count: nat)
    ensures ((([] + Number(revision, 8)) + Number(index, 2)) + Number(pages, 2)) + Number(count, 2)
         == PageHead(revision, index, pages, count)
  {
    hide Number;
    Associates(Number(revision, 8), Number(index, 2), Number(pages, 2));
    Associates(Number(revision, 8), Number(index, 2) + Number(pages, 2), Number(count, 2));
    Associates(Number(index, 2), Number(pages, 2), Number(count, 2));
    assert [] + Number(revision, 8) == Number(revision, 8);
  }

  /** What the client reads from a payload before it acts on it; an accepted page is read as it is. */
  method ReadPage(d: seq<Byte>) returns (r: Option<Msg>)
    ensures PageIn(d).Some? ==> r == PageIn(d)
  {
    hide Value, ItemAt, ItemSize, ItemsSize, AllOk, Distinct, ItemsAt, PageIn;
    var bb := new ByteBuffer(d);
    var revision := bb.ReadNumber(8);
    if revision.None? {
      PageParts(d);
      return None;
    }
    var pageIndex := bb.ReadNumber(2);
    if pageIndex.None? {
      PageParts(d);
      return None;
    }
    var pageCount := bb.ReadNumber(2);
    if pageCount.None? {
      PageParts(d);
      return None;
    }
    var count := bb.ReadNumber(2);
    if count.None? {
      PageParts(d);
      return None;
    }
    PageParts(d);
    var items := ReadItems(bb, count.value);
    if items.None? {
      return None;
    }
    r := Some(Page(revision.value, pageIndex.value, pageCount.value, items.value));
  }

  method ReadItems(bb: ByteBuffer, count: nat) returns (r: Option<seq<Item>>)
    requires bb.Inside() && bb.readPos == PAGE_HEADER
    modifies bb`readPos
    ensures ItemsAt(bb.data, PAGE_HEADER, count).Some? ==> r == ItemsAt(bb.data, PAGE_HEADER, count)
  {
    hide ItemAt, ItemSize;
    ghost var good := ItemsAt(bb.data, PAGE_HEADER, count).Some?;
    var items: seq<Item> := [];
    for i := 0 to count
      invariant bb.Inside()
      invariant good ==> ItemsAt(bb.data, PAGE_HEADER, i) == Some(items) && bb.readPos == PAGE_HEADER + ItemsSize(items)
    {
      var item := bb.ReadRoomListItem();
      if good {
        ItemsAtPrefix(bb.data, PAGE_HEADER, i + 1, count);
      }
      if item.None? {
        return None;
      }
      ItemsSizeAppend(items, item.value);
      items := items + [item.value];
    }
    r := Some(items);
  }

  lemma PageParts(d: seq<Byte>)
    ensures PageIn(d).Some? ==>
      && |d| >= PAGE_HEADER && d[0..8] == d[..8] && ItemsAt(d, PAGE_HEADER, Value(d[12..14])).Some?
      && PageIn(d).value == Page(Value(d[..8]), Value(d[8..10]), Value(d[10..12]), ItemsAt(d, PAGE_HEADER, Value(d[12..14])).value)
  {
    hide Value, ItemsAt, AllOk, Distinct;
  }

  // ---------------------------------------------------------------- from map to map

  /** A map of rooms that the server can hold. */
  ghost predicate Publishable(m: Rooms)
  {
    forall k :: k in m ==> ItemOk(Item(k, m[k]))
  }

  ghost function PageOf(m: Rooms, revision: nat, k: nat): (p: Msg)
    requires k < |Pages(m)|
    ensures p.Page?
  {
    Page(revision, k, |Pages(m)|, Pages(m)[k])
  }

  /** The payloads of buildRoomListPages. */
  ghost function Payloads(m: Rooms, revision: nat): (ds: seq<seq<Byte>>)
    ensures |ds| == |Pages(m)|
  {
    seq(|Pages(m)|, k requires 0 <= k < |Pages(m)| => EncodePage(PageOf(m, revision, k)))
  }

  lemma PublishableNamed(m: Rooms)
    requires Publishable(m)
    ensures Named(m)
  {
    forall k | k in m
      ensures |m[k].name| <= MAX_ROOM_NAME
    {
      assert ItemOk(Item(k, m[k]));
    }
  }

  ghost predicate Slice(all: seq<Item>, a: nat, page: seq<Item>)
  {
    a + |page| <= |all| && all[a..a + |page|] == page
  }

  lemma {:induction false} InFlat(ps: seq<seq<Item>>, k: nat) returns (a: nat)
    requires k < |ps|
    ensures Slice(FlatPages(ps), a, ps[k])
  {
    var init, last := ps[..|ps| - 1], ps[|ps| - 1];
    var flat := FlatPages(init);
    if k == |ps| - 1 {
      a := |flat|;
    } else {
      a := InFlat(init, k);
      assert (flat + last)[a..a + |ps[k]|] == flat[a..a + |ps[k]|];
    }
  }

  /** Every page of a map of valid rooms is acceptable and within its budget. */
  lemma PageIsOk(m: Rooms, revision: nat, k: nat)
    requires Publishable(m) && |Pages(m)| < 0x1_0000 && 0 < revision < 0x1_0000_0000_0000_0000 && k < |Pages(m)|
    ensures PageOk(PageOf(m, revision, k))
  {
    hide Pages, Listing, FlatPages, ItemOk, Named, ItemsSize;
    PublishableNamed(m);
    PagesPack(m);
    ListingAscends(m);
    var a := InFlat(Pages(m), k);
    SliceOk(Listing(m), a, Pages(m)[k], m);
  }

  lemma SliceOk(all: seq<Item>, a: nat, page: seq<Item>, m: Rooms)
    requires Slice(all, a, page) && Ascending(all) && From(all, m) && Publishable(m)
    ensures AllOk(page) && Distinct(page)
  {
    hide ItemOk;
    assert forall i :: 0 <= i < |page| ==> page[i] == all[a + i];
    forall i | 0 <= i < |page|
      ensures ItemOk(page[i])
    {
      var item := all[a + i];
      assert item == Item(item.id, m[item.id]);
    }
  }

  /** The client takes the payloads it accepts, in order. */
  ghost function TakeAll(r: Replica, ds: seq<seq<Byte>>): (n: Replica)
  {
    if ds == [] then r
    else
      var before := TakeAll(r, ds[..|ds| - 1]);
      var m := PageIn(ds[|ds| - 1]);
      if m.Some? && m.value.Page? then TakePage(before, m.value) else before
  }

  /** The snapshot after the first k pages. */
  ghost predicate HasPages(s: Replica, r: Replica, m: Rooms, revision: nat, k: nat)
    requires k <= |Pages(m)|
  {
    && s.revision == r.revision && s.cache == r.cache
    && s.snapRevision == revision && s.snapCount == |Pages(m)| && s.snapNext == k && s.snapRooms == OnPages(m, k)
  }

  lemma TakeNext(s: Replica, r: Replica, m: Rooms, revision: nat, k: nat)
    requires Named(m) && k < |Pages(m)| && (if k == 0 then s == r else HasPages(s, r, m, revision, k))
    ensures var n := TakePage(s, PageOf(m, revision, k));
      if k + 1 == |Pages(m)| then n.cache == m && n.revision == revision else HasPages(n, r, m, revision, k + 1)
  {
    hide Pages, OnPages, AddItems, Named;
    R.NoPagesYet(m);
    R.AddWholePage(m, k);
    R.AllPages(m);
  }

  lemma {:induction false} TakeFirst(r: Replica, m: Rooms, revision: nat, k: nat)
    requires Publishable(m) && |Pages(m)| < 0x1_0000 && 0 < revision < 0x1_0000_0000_0000_0000 && 0 < k <= |Pages(m)|
    ensures var n := TakeAll(r, Payloads(m, revision)[..k]);
      if k == |Pages(m)| then n.cache == m && n.revision == revision else HasPages(n, r, m, revision, k)
  {
    hide Pages, OnPages, PageIn, TakePage, EncodePage, PageOk, Publishable, Named, HasPages;
    var ds := Payloads(m, revision);
    assert ds[..k][..k - 1] == ds[..k - 1];
    if k > 1 {
      TakeFirst(r, m, revision, k - 1);
    }
    PublishableNamed(m);
    PageIsOk(m, revision, k - 1);
    PageInMeans(ds[k - 1], PageOf(m, revision, k - 1));
    TakeNext(TakeAll(r, ds[..k - 1]), r, m, revision, k - 1);
  }

  /** For every map of valid rooms, every page is small enough and is accepted, and taking the pages
   * in order, whatever the client held before, rebuilds exactly the map under its revision. */
  lemma PagesRebuild(r: Replica, m: Rooms, revision: nat)
    requires Publishable(m) && |Pages(m)| < 0x1_0000 && 0 < revision < 0x1_0000_0000_0000_0000
    ensures forall k :: 0 <= k < |Payloads(m, revision)| ==>
      && |Payloads(m, revision)[k]| <= PAGE_PAYLOAD
      && PageIn(Payloads(m, revision)[k]) == Some(PageOf(m, revision, k))
    ensures TakeAll(r, Payloads(m, revision)).cache == m && TakeAll(r, Payloads(m, revision)).revision == revision
  {
    hide Pages, PageIn, Publishable, TakeAll, ItemsSize, AllOk, Distinct;
    var ds := Payloads(m, revision);
    forall k | 0 <= k < |ds|
      ensures |ds[k]| <= PAGE_PAYLOAD && PageIn(ds[k]) == Some(PageOf(m, revision, k))
    {
      PageIsOk(m, revision, k);
      PageInMeans(ds[k], PageOf(m, revision, k));
    }
    TakeFirst(r, m, revision, |ds|);
    assert ds[..|ds|] == ds;
  }
}
