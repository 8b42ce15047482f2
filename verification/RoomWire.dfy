/**
 * The bytes of room-list messages: what ByteBuffer writes for numbers, rooms, pages and deltas, and
 * what a byte string means as such a message.
 */
module RoomWire {
  import opened Bytes
  import opened Collections
  import opened Numbers
  import opened RoomList
  import opened RoomReplica

  const MAX_PLAYERS: nat := 8

  // ---------------------------------------------------------------- places in a payload

  /** s stands at position p of d. */
  ghost predicate Occurs(d: seq<Byte>, p: nat, s: seq<Byte>)
  {
    p + |s| <= |d| && d[p..p + |s|] == s
  }

  lemma OccursParts(d: seq<Byte>, p: nat, a: seq<Byte>, b: seq<Byte>)
    ensures Occurs(d, p, a + b) <==> Occurs(d, p, a) && Occurs(d, p + |a|, b)
  {
    if p + |a| + |b| <= |d| {
      var m := p + |a|;
      assert d[p..m + |b|] == d[p..m] + d[m..m + |b|];
      if Occurs(d, p, a + b) {
        assert d[p..m] == (a + b)[..|a|];
        assert d[m..m + |b|] == (a + b)[|a|..];
      }
    }
  }

  lemma OccursNumber(d: seq<Byte>, p: nat, x: nat, n: nat)
    requires x < Pow256(n)
    ensures Occurs(d, p, Number(x, n)) <==> p + n <= |d| && Value(d[p..p + n]) == x
  {
    ValueOfNumber(x, n);
    if p + n <= |d| {
      NumberOfValue(d[p..p + n]);
    }
  }

  // ---------------------------------------------------------------- rooms

  predicate PolicyOk(p: Policy)
  {
    && (p.mode == 2 || p.mode == 3 || p.mode == 4) && p.fec <= 6 && p.profile <= 1
    && (p.mode == 3 ==> p.fec == 0)
  }

  predicate ItemOk(i: Item)
  {
    && 0 < i.id < 0x1_0000_0000 && 1 <= |i.info.name| <= MAX_ROOM_NAME
    && PolicyOk(i.info.tcp) && PolicyOk(i.info.udp)
    && 2 <= i.info.maxPlayers <= MAX_PLAYERS && i.info.players <= i.info.maxPlayers && i.info.password <= 1
    && (i.info.mtu == 1280 || i.info.mtu == 1400 || i.info.mtu == 1420)
  }

  function PolicyBytes(p: Policy): (s: seq<Byte>)
  {
    [p.mode, p.fec, p.profile]
  }

  /** What follows the name. */
  function Tail(i: RoomInfo): (s: seq<Byte>)
    ensures |s| == 11
  {
    [i.players, i.maxPlayers] + PolicyBytes(i.tcp) + PolicyBytes(i.udp) + [i.password] + Number(i.mtu, 2)
  }

  /** writeRoomListItem */
  function EncodeItem(i: Item): (s: seq<Byte>)
    ensures |s| == ItemSize(i)
  {
    Number(i.id, 4) + (Number(|i.info.name|, 2) + (i.info.name + Tail(i.info)))
  }

  /** The bytes of a room in their order; numbers have the highest byte first. */
  lemma ItemLayout(i: Item)
    ensures EncodeItem(i) == Number(i.id, 4) + Number(|i.info.name|, 2) + i.info.name
      + [i.info.players, i.info.maxPlayers, i.info.tcp.mode, i.info.tcp.fec, i.info.tcp.profile,
         i.info.udp.mode, i.info.udp.fec, i.info.udp.profile, i.info.password, i.info.mtu / 256, i.info.mtu % 256]
  {
    assert Number(i.info.mtu / 256, 1) == [] + [i.info.mtu / 256];
    assert Number(i.info.mtu, 2) == [i.info.mtu / 256, i.info.mtu % 256];
  }

  function TailAt(d: seq<Byte>, t: nat, name: seq<Byte>): (i: RoomInfo)
    requires t + 11 <= |d|
    ensures i.name == name
  {
    NumberOfValue(d[t + 9..t + 11]);
    Widths();
    RoomInfo(name, d[t], d[t + 1], Policy(d[t + 2], d[t + 3], d[t + 4]), Policy(d[t + 5], d[t + 6], d[t + 7]), d[t + 8],
             Value(d[t + 9..t + 11]))
  }

  /** The room that stands at position p, if one does. */
  function ItemAt(d: seq<Byte>, p: nat): (i: Option<Item>)
  {
    if p + 6 > |d| then None
    else
      var n := Value(d[p + 4..p + 6]);
      if p + 17 + n > |d| then None
      else
        var item := Item(Value(d[p..p + 4]), TailAt(d, p + 6 + n, d[p + 6..p + 6 + n]));
        if ItemOk(item) then Some(item) else None
  }

  lemma TailOccurs(d: seq<Byte>, t: nat, i: RoomInfo)
    requires t + 11 <= |d|
    ensures Occurs(d, t, Tail(i)) <==> TailAt(d, t, i.name) == i
  {
    hide Value, Number;
    Widths();
    var front := [i.players, i.maxPlayers] + PolicyBytes(i.tcp) + PolicyBytes(i.udp) + [i.password];
    OccursParts(d, t, front, Number(i.mtu, 2));
    OccursNumber(d, t + 9, i.mtu, 2);
    assert |front| == 9;
    FrontOccurs(d, t, i);
  }

  lemma FrontOccurs(d: seq<Byte>, t: nat, i: RoomInfo)
    requires t + 11 <= |d|
    ensures Occurs(d, t, [i.players, i.maxPlayers] + PolicyBytes(i.tcp) + PolicyBytes(i.udp) + [i.password]) <==>
      (&& d[t] == i.players && d[t + 1] == i.maxPlayers && Policy(d[t + 2], d[t + 3], d[t + 4]) == i.tcp
       && Policy(d[t + 5], d[t + 6], d[t + 7]) == i.udp && d[t + 8] == i.password)
  {
    assert d[t..t + 9] == [d[t], d[t + 1], d[t + 2], d[t + 3], d[t + 4], d[t + 5], d[t + 6], d[t + 7], d[t + 8]];
    var front := [i.players, i.maxPlayers] + PolicyBytes(i.tcp) + PolicyBytes(i.udp) + [i.password];
    assert front == [i.players, i.maxPlayers, i.tcp.mode, i.tcp.fec, i.tcp.profile, i.udp.mode, i.udp.fec, i.udp.profile, i.password];
  }

  /** A room stands at p exactly when its encoding does and its fields are acceptable. */
  lemma ItemAtMeans(d: seq<Byte>, p: nat, item: Item)
    ensures ItemAt(d, p) == Some(item) <==> ItemOk(item) && Occurs(d, p, EncodeItem(item))
  {
    hide Value, Number, Tail, TailAt, PolicyOk, Occurs;
    Widths();
    var n := |item.info.name|;
    if ItemOk(item) && p + 17 + n <= |d| {
      ItemParts(d, p, item);
      OccursNumber(d, p, item.id, 4);
      OccursNumber(d, p + 4, n, 2);
      TailOccurs(d, p + 6 + n, item.info);
      ItemAtParts(d, p, item);
    } else {
      ItemFits(d, p, item);
    }
  }

  lemma ItemFits(d: seq<Byte>, p: nat, item: Item)
    ensures ItemAt(d, p) == Some(item) ==> ItemOk(item) && p + 17 + |item.info.name| <= |d|
    ensures Occurs(d, p, EncodeItem(item)) ==> p + 17 + |item.info.name| <= |d|
  {
    hide Value, Number;
  }

  lemma ItemParts(d: seq<Byte>, p: nat, item: Item)
    ensures var n := |item.info.name|;
      Occurs(d, p, EncodeItem(item)) <==>
        (&& Occurs(d, p, Number(item.id, 4)) && Occurs(d, p + 4, Number(n, 2)) && Occurs(d, p + 6, item.info.name)
         && Occurs(d, p + 6 + n, Tail(item.info)))
  {
    hide Occurs, Tail, Number;
    var n := |item.info.name|;
    OccursParts(d, p + 6, item.info.name, Tail(item.info));
    OccursParts(d, p + 4, Number(n, 2), item.info.name + Tail(item.info));
    OccursParts(d, p, Number(item.id, 4), Number(n, 2) + (item.info.name + Tail(item.info)));
  }

  lemma ItemAtParts(d: seq<Byte>, p: nat, item: Item)
    requires ItemOk(item) && p + 17 + |item.info.name| <= |d|
    ensures var n := |item.info.name|;
      ItemAt(d, p) == Some(item) <==>
        (&& Value(d[p..p + 4]) == item.id && Value(d[p + 4..p + 6]) == n && Occurs(d, p + 6, item.info.name)
         && TailAt(d, p + 6 + n, item.info.name) == item.info)
  {
    hide Value, Number, ItemOk;
  }

  // ---------------------------------------------------------------- lists of rooms

  function EncodeItems(items: seq<Item>): (s: seq<Byte>)
    ensures |s| == ItemsSize(items)
  {
    if items == [] then [] else EncodeItems(items[..|items| - 1]) + EncodeItem(items[|items| - 1])
  }

  ghost predicate AllOk(items: seq<Item>)
  {
    forall i :: 0 <= i < |items| ==> ItemOk(items[i])
  }

  /** The k rooms that stand one after the other from position p on. */
  function ItemsAt(d: seq<Byte>, p: nat, k: nat): (r: Option<seq<Item>>)
  {
    if k == 0 then Some([])
    else
      var before := ItemsAt(d, p, k - 1);
      if before.None? then None
      else
        var next := ItemAt(d, p + ItemsSize(before.value));
        if next.None? then None else Some(before.value + [next.value])
  }

  lemma {:induction false} ItemsAtMeans(d: seq<Byte>, p: nat, items: seq<Item>)
    requires p <= |d|
    ensures ItemsAt(d, p, |items|) == Some(items) <==> AllOk(items) && Occurs(d, p, EncodeItems(items))
  {
    hide ItemAt, ItemOk, EncodeItem, Occurs;
    if items == [] {
      OccursNothing(d, p);
    } else {
      var init, last := items[..|items| - 1], items[|items| - 1];
      ItemsAtMeans(d, p, init);
      ItemAtMeans(d, p + ItemsSize(init), last);
      OccursParts(d, p, EncodeItems(init), EncodeItem(last));
      assert items == init + [last];
      AllOkLast(init, last);
      ItemsAtLast(d, p, init, last);
    }
  }

  lemma OccursNothing(d: seq<Byte>, p: nat)
    requires p <= |d|
    ensures Occurs(d, p, [])
  {
  }

  lemma AllOkLast(init: seq<Item>, last: Item)
    ensures AllOk(init + [last]) <==> AllOk(init) && ItemOk(last)
  {
    hide ItemOk;
    var all := init + [last];
    assert all[|init|] == last;
    assert forall i :: 0 <= i < |init| ==> all[i] == init[i];
  }

  lemma ItemsAtLast(d: seq<Byte>, p: nat, init: seq<Item>, last: Item)
    ensures ItemsAt(d, p, |init| + 1) == Some(init + [last]) <==>
      ItemsAt(d, p, |init|) == Some(init) && ItemAt(d, p + ItemsSize(init)) == Some(last)
  {
    hide ItemAt, ItemsSize;
    var before := ItemsAt(d, p, |init|);
    if before.Some? && ItemsAt(d, p, |init| + 1) == Some(init + [last]) {
      var next := ItemAt(d, p + ItemsSize(before.value));
      assert before.value + [next.value] == init + [last];
      assert before.value == (before.value + [next.value])[..|init + [last]| - 1];
      assert init == (init + [last])[..|init|];
    }
  }

  lemma {:induction false} ItemsAtLength(d: seq<Byte>, p: nat, k: nat)
    ensures ItemsAt(d, p, k).Some? ==> |ItemsAt(d, p, k).value| == k && 18 * k <= ItemsSize(ItemsAt(d, p, k).value)
    ensures ItemsAt(d, p, k).Some? && k > 0 ==> p + ItemsSize(ItemsAt(d, p, k).value) <= |d|
  {
    hide ItemAt, ItemSize;
    if k > 0 {
      ItemsAtLength(d, p, k - 1);
      var before := ItemsAt(d, p, k - 1);
      if before.Some? {
        var next := ItemAt(d, p + ItemsSize(before.value));
        if next.Some? {
          ItemAtSize(d, p + ItemsSize(before.value));
          ItemsSizeAppend(before.value, next.value);
        }
      }
    }
  }

  lemma ItemAtSize(d: seq<Byte>, p: nat)
    ensures ItemAt(d, p).Some? ==> 18 <= ItemSize(ItemAt(d, p).value) && p + ItemSize(ItemAt(d, p).value) <= |d|
  {
    hide Value, Number;
  }

  /** Once a room is missing, the list is. */
  lemma {:induction false} ItemsAtFails(d: seq<Byte>, p: nat, i: nat, k: nat)
    requires i <= k && ItemsAt(d, p, i).None?
    ensures ItemsAt(d, p, k).None?
  {
    hide ItemAt;
    if i < k {
      ItemsAtFails(d, p, i, k - 1);
    }
  }

  /** A shorter list is the beginning of a longer one. */
  lemma {:induction false} ItemsAtPrefix(d: seq<Byte>, p: nat, i: nat, k: nat)
    requires i <= k && ItemsAt(d, p, k).Some?
    ensures ItemsAt(d, p, i).Some? && ItemsAt(d, p, i).value <= ItemsAt(d, p, k).value
  {
    hide ItemAt;
    if i < k {
      ItemsAtPrefix(d, p, i, k - 1);
    }
  }

  // ---------------------------------------------------------------- pages

  ghost predicate Distinct(items: seq<Item>)
  {
    forall i, j :: 0 <= i < j < |items| ==> items[i].id != items[j].id
  }

  function PageHead(revision: nat, index: nat, pages: nat, count: nat): (s: seq<Byte>)
    ensures |s| == PAGE_HEADER
  {
    Number(revision, 8) + (Number(index, 2) + (Number(pages, 2) + Number(count, 2)))
  }

  /** The payload of MSG_ROOM_LIST. */
  function EncodePage(m: Msg): (s: seq<Byte>)
    requires m.Page?
    ensures |s| == PAGE_HEADER + ItemsSize(m.items)
  {
    PageHead(m.revision, m.index, m.count, |m.items|) + EncodeItems(m.items)
  }

  /** What the validator is to accept. */
  ghost predicate PageOk(m: Msg)
  {
    && m.Page? && 0 < m.revision < 0x1_0000_0000_0000_0000 && m.index < m.count < 0x1_0000
    && PageFits(m.items) && AllOk(m.items) && Distinct(m.items)
  }

  /** The page that a payload is, if it is one. */
  ghost function PageIn(d: seq<Byte>): (m: Option<Msg>)
  {
    if |d| < PAGE_HEADER then None
    else
      var items := ItemsAt(d, PAGE_HEADER, Value(d[12..14]));
      if items.None? then None
      else
        var m := Page(Value(d[..8]), Value(d[8..10]), Value(d[10..12]), items.value);
        if PageOk(m) && |d| == PAGE_HEADER + ItemsSize(items.value) then Some(m) else None
  }

  lemma {:induction false} ItemsSizeMin(items: seq<Item>)
    requires AllOk(items)
    ensures 18 * |items| <= ItemsSize(items)
  {
    if items != [] {
      ItemsSizeMin(items[..|items| - 1]);
    }
  }

  lemma HeadMeans(d: seq<Byte>, m: Msg, k: nat)
    requires m.Page? && m.revision < 0x1_0000_0000_0000_0000 && m.index < 0x1_0000 && m.count < 0x1_0000 && k < 0x1_0000
    requires |d| >= PAGE_HEADER
    ensures Occurs(d, 0, PageHead(m.revision, m.index, m.count, k)) <==>
      (&& Value(d[..8]) == m.revision && Value(d[8..10]) == m.index && Value(d[10..12]) == m.count && Value(d[12..14]) == k)
  {
    hide Value, Number, Occurs;
    Widths();
    OccursParts(d, 10, Number(m.count, 2), Number(k, 2));
    OccursParts(d, 8, Number(m.index, 2), Number(m.count, 2) + Number(k, 2));
    OccursParts(d, 0, Number(m.revision, 8), Number(m.index, 2) + (Number(m.count, 2) + Number(k, 2)));
    OccursNumber(d, 0, m.revision, 8);
    OccursNumber(d, 8, m.index, 2);
    OccursNumber(d, 10, m.count, 2);
    OccursNumber(d, 12, k, 2);
  }

  /** The payloads that are pages are exactly the encodings of acceptable pages. */
  lemma PageInMeans(d: seq<Byte>, m: Msg)
    ensures PageIn(d) == Some(m) <==> PageOk(m) && d == EncodePage(m)
  {
    hide Value, ItemsAt, EncodeItems, PageHead, AllOk, Distinct;
    if PageOk(m) && |d| == PAGE_HEADER + ItemsSize(m.items) {
      CountBound(m.items);
      HeadMeans(d, m, |m.items|);
      ItemsAtMeans(d, PAGE_HEADER, m.items);
      WholeOccurs(d, m);
      OccursParts(d, 0, PageHead(m.revision, m.index, m.count, |m.items|), EncodeItems(m.items));
      ItemsAtLength(d, PAGE_HEADER, Value(d[12..14]));
    }
  }

  /** A page is accepted exactly if it is the encoding of a page with these fields and limits. */
  lemma PageLimits(d: seq<Byte>, m: Msg)
    ensures PageIn(d) == Some(m) <==>
      && m.Page? && d == EncodePage(m) && |d| <= 60000
      && 0 < m.revision < 0x1_0000_0000_0000_0000 && m.index < m.count < 0x1_0000
      && (forall i, j :: 0 <= i < j < |m.items| ==> m.items[i].id != m.items[j].id)
      && (forall i :: 0 <= i < |m.items| ==>
            var r := m.items[i].info;
            && 0 < m.items[i].id < 0x1_0000_0000 && 1 <= |r.name| <= 63 && 2 <= r.maxPlayers <= 8 && r.players <= r.maxPlayers
            && 2 <= r.tcp.mode <= 4 && r.tcp.fec <= 6 && r.tcp.profile <= 1 && (r.tcp.mode == 3 ==> r.tcp.fec == 0)
            && 2 <= r.udp.mode <= 4 && r.udp.fec <= 6 && r.udp.profile <= 1 && (r.udp.mode == 3 ==> r.udp.fec == 0)
            && r.password <= 1 && (r.mtu == 1280 || r.mtu == 1400 || r.mtu == 1420))
  {
    hide PageIn, EncodeItems, PageHead;
    PageInMeans(d, m);
  }

  lemma CountBound(items: seq<Item>)
    requires PageFits(items) && AllOk(items)
    ensures |items| < 0x1_0000
  {
    ItemsSizeMin(items);
  }

  lemma WholeOccurs(d: seq<Byte>, m: Msg)
    requires m.Page? && |d| == PAGE_HEADER + ItemsSize(m.items)
    ensures d == EncodePage(m) <==> Occurs(d, 0, EncodePage(m))
  {
    hide EncodePage;
    assert d[0..|d|] == d;
  }
}
