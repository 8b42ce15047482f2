/**
 * Runs of room-list replication: the server changes its rooms and publishes, answers list
 * requests, and loses any of its messages; the client takes what arrives in order and may
 * reconnect. The history of what was published is kept beside the run.
 */
module RoomReplication {
  import opened Collections
  import opened RoomList
  import opened RoomReplica

  datatype World = World(rooms: Rooms, published: Published, history: map<nat, Rooms>, channel: seq<Msg>, client: Replica)

  ghost function Start(): World
  {
    World(map[], Published(map[], 1), map[1 := map[]], [], Blank())
  }

  datatype Step =
    | Change(rooms: Rooms, lost: bool)
    | SendPage(index: nat)
    | Receive
    | Reconnect

  /** A handler changes the rooms and broadcasts; the delta may not fit the client's send buffer. */
  ghost function Changed(w: World, rooms: Rooms, lost: bool): World
  {
    var r := Publish(w.published, rooms);
    var h := if r.0.revision == w.published.revision then w.history else w.history[r.0.revision := rooms];
    World(rooms, r.0, h, if lost || r.1.None? then w.channel else w.channel + [r.1.value], w.client)
  }

  ghost predicate Next(w: World, w': World, s: Step)
  {
    match s
    case Change(rooms, lost) => Listable(rooms) && w' == Changed(w, rooms, lost)
    case SendPage(i) =>
      i < |Pages(w.rooms)| && w' == w.(channel := w.channel + [Page(w.published.revision, i, |Pages(w.rooms)|, Pages(w.rooms)[i])])
    case Receive => w.channel != [] && w' == w.(client := Take(w.client, w.channel[0]), channel := w.channel[1..])
    case Reconnect => w' == w.(client := Blank(), channel := [])
  }

  // ---------------------------------------------------------------- the invariant

  ghost predicate MsgOk(m: Msg, h: map<nat, Rooms>)
  {
    match m
    case Page(revision, index, count, items) =>
      revision > 0 && revision in h && count == |Pages(h[revision])| && index < count && items == Pages(h[revision])[index]
    case Delta(base, revision, ops) =>
      base > 0 && revision > 0 && base in h && revision in h && ApplyAll(h[base], ops) == h[revision]
  }

  ghost predicate ChannelOk(ms: seq<Msg>, h: map<nat, Rooms>)
  {
    forall i :: 0 <= i < |ms| ==> MsgOk(ms[i], h)
  }

  /** A replica with a revision is the state published under it; a snapshot has its first pages. */
  ghost predicate ReplicaOk(r: Replica, h: map<nat, Rooms>)
  {
    && (r.revision != 0 ==> r.revision in h && r.cache == h[r.revision])
    && (r.snapRevision != 0 ==>
          && r.snapRevision in h && r.snapCount == |Pages(h[r.snapRevision])| && r.snapNext < r.snapCount
          && r.snapRooms == OnPages(h[r.snapRevision], r.snapNext))
  }

  ghost predicate HistoryOk(h: map<nat, Rooms>, p: Published)
  {
    && p.revision > 0 && p.revision in h && h[p.revision] == p.rooms
    && (forall k :: k in h ==> 0 < k <= p.revision && Listable(h[k]))
  }

  ghost predicate Inv(w: World)
  {
    && w.rooms == w.published.rooms
    && HistoryOk(w.history, w.published)
    && ChannelOk(w.channel, w.history) && ReplicaOk(w.client, w.history)
  }

  lemma StartInv()
    ensures Inv(Start())
  {
  }

  // ---------------------------------------------------------------- the server side

  /** After every handler the collected rooms are the published ones. */
  lemma ChangeKeeps(w: World, rooms: Rooms, lost: bool)
    requires Inv(w) && Listable(rooms)
    ensures Inv(Changed(w, rooms, lost))
    ensures Changed(w, rooms, lost).published.rooms == rooms
  {
    hide Changes, DeltaSize, Pages, ApplyAll, OnPages, Listable;
    DeltaFits(w.rooms, rooms);
    NoChanges(w.rooms, rooms);
    ChangesApply(w.rooms, rooms);
    var w' := Changed(w, rooms, lost);
    forall i | 0 <= i < |w.channel|
      ensures MsgOk(w.channel[i], w'.history)
    {
      assert MsgOk(w.channel[i], w.history);
    }
  }

  lemma SendPageKeeps(w: World, i: nat)
    requires Inv(w) && i < |Pages(w.rooms)|
    ensures Inv(w.(channel := w.channel + [Page(w.published.revision, i, |Pages(w.rooms)|, Pages(w.rooms)[i])]))
  {
    hide Pages, OnPages, ApplyAll, Listable;
  }

  // ---------------------------------------------------------------- the client side

  /** The items of the next page are all new, so the snapshot grows by that page. */
  lemma {:induction false} AddPage(m: Rooms, n: nat, i: nat)
    requires Named(m) && n < |Pages(m)| && i <= |Pages(m)[n]|
    ensures AddItems(OnPages(m, n), Pages(m)[n][..i]) == Some(MapOf(FlatPages(Pages(m)[..n]) + Pages(m)[n][..i]))
  {
    hide Pages, MapOf, FlatPages;
    var page, before := Pages(m)[n], FlatPages(Pages(m)[..n]);
    if i == 0 {
      assert page[..0] == [];
      assert before + [] == before;
      AddNone(OnPages(m, n));
    } else {
      AddPage(m, n, i - 1);
      NoRepeats(m, n, i - 1);
      AddNext(OnPages(m, n), page, i - 1);
    }
  }

  lemma AddWholePage(m: Rooms, n: nat)
    requires Named(m) && n < |Pages(m)|
    ensures AddItems(OnPages(m, n), Pages(m)[n]) == Some(OnPages(m, n + 1))
  {
    hide Pages, MapOf, FlatPages, AddItems, Named;
    AddPage(m, n, |Pages(m)[n]|);
    assert Pages(m)[n][..|Pages(m)[n]|] == Pages(m)[n];
    assert FlatPages(Pages(m)[..n + 1]) == FlatPages(Pages(m)[..n]) + Pages(m)[n] by {
      FlatPrefix(Pages(m), n);
    }
  }

  lemma NoPagesYet(m: Rooms)
    ensures OnPages(m, 0) == map[]
  {
    hide Pages;
    assert Pages(m)[..0] == [];
  }

  lemma TakePageKeeps(r: Replica, m: Msg, h: map<nat, Rooms>)
    requires ReplicaOk(r, h) && m.Page? && MsgOk(m, h) && Listable(h[m.revision])
    ensures ReplicaOk(TakePage(r, m), h)
  {
    hide Pages, OnPages, AddItems, Named;
    var rooms := h[m.revision];
    NoPagesYet(rooms);
    var s := StartSnapshot(r, m);
    assert ReplicaOk(s, h);
    if m.revision == s.snapRevision && m.count == s.snapCount && m.index == s.snapNext {
      AddWholePage(rooms, m.index);
      AllPages(rooms);
    }
  }

  lemma AllPages(m: Rooms)
    requires Named(m)
    ensures OnPages(m, |Pages(m)|) == m
  {
    hide Pages, OnPages;
    OnAllPages(m);
  }

  /** An honest page that continues the snapshot is never taken for a repeated room. */
  lemma NoFalseRepeat(r: Replica, m: Msg, h: map<nat, Rooms>)
    requires ReplicaOk(r, h) && m.Page? && MsgOk(m, h) && Listable(h[m.revision])
    ensures var s := StartSnapshot(r, m);
      PageRejected(r, m) <==> m.revision != s.snapRevision || m.count != s.snapCount || m.index != s.snapNext
  {
    hide Pages, OnPages, AddItems, Named;
    NoPagesYet(h[m.revision]);
    var s := StartSnapshot(r, m);
    if m.revision == s.snapRevision && m.count == s.snapCount && m.index == s.snapNext {
      AddWholePage(h[m.revision], m.index);
    }
  }

  lemma TakeDeltaKeeps(r: Replica, m: Msg, h: map<nat, Rooms>)
    requires ReplicaOk(r, h) && m.Delta? && MsgOk(m, h)
    ensures ReplicaOk(TakeDelta(r, m), h)
  {
    hide Pages, OnPages, ApplyAll;
  }

  lemma ReceiveKeeps(w: World)
    requires Inv(w) && w.channel != []
    ensures Inv(w.(client := Take(w.client, w.channel[0]), channel := w.channel[1..]))
  {
    hide TakePage, TakeDelta, ReplicaOk, Listable, Pages, ApplyAll;
    var m := w.channel[0];
    assert MsgOk(m, w.history);
    if m.Page? {
      TakePageKeeps(w.client, m, w.history);
    } else {
      TakeDeltaKeeps(w.client, m, w.history);
    }
    forall i | 0 <= i < |w.channel[1..]|
      ensures MsgOk(w.channel[1..][i], w.history)
    {
      assert MsgOk(w.channel[i + 1], w.history);
    }
  }

  lemma StepKeeps(w: World, w': World, s: Step)
    requires Inv(w) && Next(w, w', s)
    ensures Inv(w')
  {
    hide Inv, Changed, Take, Pages;
    match s
    case Change(rooms, lost) => ChangeKeeps(w, rooms, lost);
    case SendPage(i) => SendPageKeeps(w, i);
    case Receive => ReceiveKeeps(w);
    case Reconnect => ReconnectKeeps(w);
  }

  lemma ReconnectKeeps(w: World)
    requires Inv(w)
    ensures Inv(w.(client := Blank(), channel := []))
  {
    hide HistoryOk, Pages;
  }

  // ---------------------------------------------------------------- every run

  ghost predicate Steps(w: World, w': World)
  {
    exists s :: Next(w, w', s)
  }

  ghost predicate Run(ws: seq<World>)
  {
    && ws != [] && ws[0] == Start()
    && forall i :: 0 <= i < |ws| - 1 ==> Steps(ws[i], ws[i + 1])
  }

  lemma {:induction false} RunKeeps(ws: seq<World>)
    requires Run(ws)
    ensures Inv(ws[|ws| - 1])
  {
    hide Inv, Next;
    var last := |ws| - 1;
    if last == 0 {
      StartInv();
    } else {
      var before := ws[..last];
      forall i | 0 <= i < last - 1
        ensures Steps(before[i], before[i + 1])
      {
        assert Steps(ws[i], ws[i + 1]);
      }
      RunKeeps(before);
      assert Steps(ws[last - 1], ws[last]);
      var s :| Next(ws[last - 1], ws[last], s);
      StepKeeps(ws[last - 1], ws[last], s);
    }
  }

  /** In every run a client that holds a revision holds the rooms published under it, and a client
   * at the server's revision holds the server's rooms. */
  lemma ReplicaIsHistory(ws: seq<World>)
    requires Run(ws)
    ensures var w := ws[|ws| - 1];
      && (w.client.revision != 0 ==> w.client.revision in w.history && w.client.cache == w.history[w.client.revision])
      && (w.client.revision == w.published.revision ==> w.client.cache == w.rooms)
  {
    hide Run, ChannelOk, Pages, Listable;
    RunKeeps(ws);
  }

  /** Deltas that arrive one after the other keep a current client current. */
  lemma CurrentStaysCurrent(w: World, rooms: Rooms)
    requires Inv(w) && Listable(rooms) && w.channel == [] && w.client.revision == w.published.revision
    ensures var w1 := Changed(w, rooms, false);
      if w1.channel == [] then rooms == w.rooms && w1.client.cache == rooms
      else Take(w1.client, w1.channel[0]).cache == rooms && Take(w1.client, w1.channel[0]).revision == w1.published.revision
  {
    hide Changes, DeltaSize, Pages, ApplyAll, OnPages, Listable;
    DeltaFits(w.rooms, rooms);
    NoChanges(w.rooms, rooms);
    ChangesApply(w.rooms, rooms);
  }
}
