/**
 * What cleanupExpiredLeases does to each lease, read off the leases before and after it: exactly the
 * leases go that were offline, past their time and without an alive session in the room.
 */
module SignalExpiry {
  import opened Collections
  import opened SignalState
  import opened SignalTerms
  import opened SignalServer
  import L = RoomList

  /** The peer has an alive session in the room. */
  ghost predicate Present(clients: Clients, r: nat, p: nat)
  {
    exists f :: f in clients && clients[f].alive && clients[f].state == InRoom && clients[f].roomId == r && clients[f].peerId == p
  }

  /** The lease m is the lease l, found online or offline: a lease found offline keeps its time, or gets
   * 120 seconds if it had none, and is not past it. */
  ghost predicate Aged(l: Lease, m: Lease, now: int)
  {
    && m == l.(online := m.online, expiresAt := m.expiresAt)
    && (if m.online then m.expiresAt == (if l.online then l.expiresAt else 0)
        else m.expiresAt == (if l.online || l.expiresAt == 0 then now + 120 else l.expiresAt))
    && (m.online || m.expiresAt <= 0 || now <= m.expiresAt)
  }

  /** The lease l stays, online if its peer is still present, or it goes for good reason. */
  ghost predicate Settled(after: Clients, r: nat, l: Lease, left: seq<Lease>, now: int)
  {
    || (exists j :: 0 <= j < |left| && Aged(l, left[j], now) && (Present(after, r, l.peerId) ==> left[j].online))
    || (!l.online && 0 < l.expiresAt < now && !Present(after, r, l.peerId))
  }

  /** The lease m was there before, and is online only if its peer was present. */
  ghost predicate Known(before: Clients, r: nat, leases: seq<Lease>, m: Lease, now: int)
  {
    (m.online ==> Present(before, r, m.peerId)) && exists i :: 0 <= i < |leases| && Aged(leases[i], m, now)
  }

  ghost predicate RoomSwept(before: Clients, after: Clients, r: nat, leases: seq<Lease>, left: seq<Lease>, now: int)
  {
    && (forall i :: 0 <= i < |leases| ==> Settled(after, r, leases[i], left, now))
    && (forall j :: 0 <= j < |left| ==> Known(before, r, leases, left[j], now))
  }

  /** The same sessions, some of which may have lost their connection. */
  ghost predicate Fewer(a: Clients, b: Clients)
  {
    b.Keys == a.Keys && forall f :: f in a ==> b[f] == a[f].(alive := a[f].alive && b[f].alive)
  }

  lemma FewerPresent(a: Clients, b: Clients, r: nat, p: nat)
    requires Fewer(a, b) && Present(b, r, p)
    ensures Present(a, r, p)
  {
    var f :| f in b && b[f].alive && b[f].state == InRoom && b[f].roomId == r && b[f].peerId == p;
    assert f in a.Keys;
    assert a[f].alive;
  }

  lemma FewerTwice(a: Clients, b: Clients, c: Clients)
    requires Fewer(a, b) && Fewer(b, c)
    ensures Fewer(a, c)
  {
    forall f | f in a
      ensures f in c && c[f] == a[f].(alive := a[f].alive && c[f].alive)
    {
      assert f in b.Keys;
    }
  }

  lemma LoseFewer(a: Clients, dead: set<int>)
    ensures Fewer(a, a) && Fewer(a, Lose(a, dead))
  {
  }

  lemma LiveIs(clients: Clients, r: nat, p: nat)
    ensures Live(clients, r, p) <==> Present(clients, r, p)
  {
  }

  lemma RefreshedAged(l: Lease, live: bool, now: int)
    ensures var m := Refreshed(l, live, now);
      if Expired(m, now) then !l.online && 0 < l.expiresAt < now && !live
      else Aged(l, m, now) && (m.online <==> live)
  {
  }

  // ---------------------------------------------------------------- one room

  lemma {:induction false} SurvivorsMean(clients: Clients, r: nat, leases: seq<Lease>, now: int, told: nat -> set<int>)
    ensures var s := Survivors(clients, r, leases, now, told);
      Fewer(clients, s.1) && RoomSwept(clients, s.1, r, leases, s.0, now)
    decreases |leases|
  {
    hide Fewer, Lose, Live, Expired, Refreshed, RoomSwept;
    LoseFewer(clients, {});
    if leases == [] {
      NothingSwept(clients, clients, r, now);
    } else {
      var p, live := leases[0].peerId, Live(clients, r, leases[0].peerId);
      var l := Refreshed(leases[0], live, now);
      LiveIs(clients, r, p);
      RefreshedAged(leases[0], live, now);
      RefreshedPeer(leases[0], live, now);
      if Expired(l, now) {
        var rest := Lose(clients, told(l.peerId));
        LoseFewer(clients, told(l.peerId));
        SurvivorsMean(rest, r, leases[1..], now, told);
        var s := Survivors(rest, r, leases[1..], now, told);
        FewerTwice(clients, rest, s.1);
        FirstGoes(clients, rest, s.1, r, leases, s.0, now);
      } else {
        SurvivorsMean(clients, r, leases[1..], now, told);
        var s := Survivors(clients, r, leases[1..], now, told);
        FirstStays(clients, s.1, r, leases, l, s.0, now);
      }
    }
  }

  lemma NothingSwept(before: Clients, after: Clients, r: nat, now: int)
    ensures RoomSwept(before, after, r, [], [], now)
  {
  }

  lemma FirstGoes(before: Clients, mid: Clients, after: Clients, r: nat, leases: seq<Lease>, left: seq<Lease>, now: int)
    requires leases != [] && Fewer(before, mid) && Fewer(before, after) && RoomSwept(mid, after, r, leases[1..], left, now)
    requires var l := leases[0]; !l.online && 0 < l.expiresAt < now && !Present(before, r, l.peerId)
    ensures RoomSwept(before, after, r, leases, left, now)
  {
    hide Aged, Fewer, Present;
    var t := leases[1..];
    forall i | 0 <= i < |leases|
      ensures Settled(after, r, leases[i], left, now)
    {
      if i > 0 {
        assert Settled(after, r, t[i - 1], left, now);
      } else if Present(after, r, leases[0].peerId) {
        FewerPresent(before, after, r, leases[0].peerId);
        assert false;
      }
    }
    forall j | 0 <= j < |left|
      ensures Known(before, r, leases, left[j], now)
    {
      KnownLater(mid, before, r, leases, left[j], now);
    }
  }

  lemma KnownLater(mid: Clients, before: Clients, r: nat, leases: seq<Lease>, m: Lease, now: int)
    requires leases != [] && Fewer(before, mid) && Known(mid, r, leases[1..], m, now)
    ensures Known(before, r, leases, m, now)
  {
    hide Aged, Fewer, Present;
    var i :| 0 <= i < |leases| - 1 && Aged(leases[1..][i], m, now);
    assert leases[1..][i] == leases[i + 1];
    if m.online {
      FewerPresent(before, mid, r, m.peerId);
    }
  }

  lemma FirstStays(before: Clients, after: Clients, r: nat, leases: seq<Lease>, l: Lease, left: seq<Lease>, now: int)
    requires leases != [] && Fewer(before, before) && Fewer(before, after) && RoomSwept(before, after, r, leases[1..], left, now)
    requires Aged(leases[0], l, now) && l.peerId == leases[0].peerId && (l.online <==> Present(before, r, l.peerId))
    ensures RoomSwept(before, after, r, leases, [l] + left, now)
  {
    hide Settled, Known, Fewer, Aged;
    var t, all := leases[1..], [l] + left;
    forall i | 0 <= i < |leases|
      ensures Settled(after, r, leases[i], all, now)
    {
      if i > 0 {
        SettledLater(after, r, t[i - 1], l, left, now);
      } else {
        SettledFirst(before, after, r, leases[0], l, left, now);
      }
    }
    forall j | 0 <= j < |all|
      ensures Known(before, r, leases, all[j], now)
    {
      if j > 0 {
        KnownLater(before, before, r, leases, left[j - 1], now);
      } else {
        KnownFirst(before, r, leases, l, now);
      }
    }
  }

  lemma SettledLater(after: Clients, r: nat, m: Lease, l: Lease, left: seq<Lease>, now: int)
    requires Settled(after, r, m, left, now)
    ensures Settled(after, r, m, [l] + left, now)
  {
    hide Aged, Present;
    var all := [l] + left;
    assert forall j :: 0 <= j < |left| ==> all[j + 1] == left[j];
  }

  lemma SettledFirst(before: Clients, after: Clients, r: nat, m: Lease, l: Lease, left: seq<Lease>, now: int)
    requires Fewer(before, after) && Aged(m, l, now) && l.peerId == m.peerId && (l.online <==> Present(before, r, l.peerId))
    ensures Settled(after, r, m, [l] + left, now)
  {
    hide Aged, Fewer, Present;
    if Present(after, r, l.peerId) {
      FewerPresent(before, after, r, l.peerId);
    }
    assert ([l] + left)[0] == l;
  }

  lemma KnownFirst(before: Clients, r: nat, leases: seq<Lease>, l: Lease, now: int)
    requires leases != [] && Aged(leases[0], l, now) && (l.online ==> Present(before, r, l.peerId))
    ensures Known(before, r, leases, l, now)
  {
    hide Aged, Present;
  }

  // ---------------------------------------------------------------- all rooms

  /** Sessions that were there before, and sessions that are lost later, settle no less. */
  lemma SweptWider(a: Clients, b: Clients, c: Clients, d: Clients, r: nat, leases: seq<Lease>, left: seq<Lease>, now: int)
    requires Fewer(a, b) && Fewer(c, d) && RoomSwept(b, c, r, leases, left, now)
    ensures RoomSwept(a, d, r, leases, left, now)
  {
    hide Aged, Fewer, Present;
    forall i | 0 <= i < |leases|
      ensures Settled(d, r, leases[i], left, now)
    {
      assert Settled(c, r, leases[i], left, now);
      if Present(d, r, leases[i].peerId) {
        FewerPresent(c, d, r, leases[i].peerId);
      }
    }
    forall j | 0 <= j < |left|
      ensures Known(a, r, leases, left[j], now)
    {
      assert Known(b, r, leases, left[j], now);
      if left[j].online {
        FewerPresent(a, b, r, left[j].peerId);
      }
    }
  }

  lemma {:induction false} SweepMeans(clients: Clients, rooms: Rooms, left: set<nat>, now: int, told: nat -> set<int>)
    requires left <= rooms.Keys
    ensures var s := Sweep(clients, rooms, left, now, told);
      && Fewer(clients, s.0)
      && (forall q :: q in left ==> RoomSwept(clients, s.0, q, rooms[q].leases, s.1[q].leases, now))
      && (forall q :: q in rooms && q !in left ==> s.1[q] == rooms[q])
    decreases |left|
  {
    hide Survivors, EnsureHost, Fewer, RoomSwept;
    LoseFewer(clients, {});
    if left != {} {
      var r := L.MinKey(left);
      var one := Swept(clients, r, rooms[r], now, told);
      var next := rooms[r := one.0];
      SurvivorsMean(clients, r, rooms[r].leases, now, told);
      HostOnly(rooms[r].(leases := Survivors(clients, r, rooms[r].leases, now, told).0));
      assert RoomSwept(clients, one.1, r, rooms[r].leases, one.0.leases, now);
      SweepMeans(one.1, next, left - {r}, now, told);
      var s := Sweep(one.1, next, left - {r}, now, told);
      FewerTwice(clients, one.1, s.0);
      forall q | q in left
        ensures RoomSwept(clients, s.0, q, rooms[q].leases, s.1[q].leases, now)
      {
        if q == r {
          LoseFewer(clients, {});
          SweptWider(clients, clients, one.1, s.0, r, rooms[r].leases, one.0.leases, now);
        } else {
          LoseFewer(s.0, {});
          SweptWider(clients, one.1, s.0, s.0, q, rooms[q].leases, s.1[q].leases, now);
        }
      }
    }
  }

  /** After lease expiry: every room that is left has a lease; every lease that is left was there before,
   * has kept its time or got 120 seconds, and is not past it; every other lease was offline, past its
   * time, and its peer is not present. No session is removed. */
  lemma CleanedMeans(clients: Clients, rooms: Rooms, now: int, net: Net)
    ensures var n, after := Cleaned(clients, rooms, now, net), CleanedClients(clients, rooms, now, net);
      && Fewer(clients, after) && n.Keys <= rooms.Keys
      && (forall r :: r in n ==> n[r].leases != [] && RoomSwept(clients, after, r, rooms[r].leases, n[r].leases, now))
      && (forall r :: r in rooms && r !in n ==> RoomSwept(clients, after, r, rooms[r].leases, [], now))
  {
    hide Sweep, Fewer, RoomSwept, Collected, Lose;
    var s := Sweep(clients, rooms, rooms.Keys, now, net.told);
    var n, after := Cleaned(clients, rooms, now, net), CleanedClients(clients, rooms, now, net);
    SweepMeans(clients, rooms, rooms.Keys, now, net.told);
    LoseFewer(s.0, net.pushed);
    LoseFewer(clients, {});
    FewerTwice(clients, s.0, after);
    forall r | r in rooms
      ensures RoomSwept(clients, after, r, rooms[r].leases, s.1[r].leases, now)
    {
      SweptWider(clients, clients, s.0, after, r, rooms[r].leases, s.1[r].leases, now);
    }
  }
}
