/**
 * The host of a room: every change the handlers make to the rooms keeps it a holder of a lease there.
 */
module SignalHosts {
  import opened SignalState
  import opened SignalServer
  import L = RoomList

  /** The host of every room that has leases holds one of them. */
  ghost predicate Hosted(rooms: Rooms)
  {
    forall r :: r in rooms ==> HostHolds(rooms[r])
  }

  ghost predicate HostHolds(room: Room)
  {
    room.leases == [] || exists i :: Host(room, i)
  }

  lemma EnsuredHolds(room: Room)
    ensures HostHolds(EnsureHost(room)) && EnsureHost(room).leases == room.leases
  {
    HostHasLease(room);
  }

  /** Marking a lease offline leaves the host; marking one online changes no host. */
  lemma MarksKeepHosts(rooms: Rooms, r: nat, p: nat, i: nat, now: int)
    requires Hosted(rooms)
    ensures Hosted(Offline(rooms, r, p, now))
    ensures InSlot(rooms, r, i) ==> Hosted(Online(rooms, r, i)) && Online(rooms, r, i)[r].hostPeerId == rooms[r].hostPeerId
  {
    hide EnsureHost;
    if r in rooms {
      var n := Offline(rooms, r, p, now);
      SameHolders(rooms[r], n[r]);
      if InSlot(rooms, r, i) {
        var back := rooms[r].(leases := rooms[r].leases[i := rooms[r].leases[i].(online := true, expiresAt := 0)]);
        SameHolders(rooms[r], back);
        EnsuredHolds(back);
        HostStays(back);
      }
    }
  }

  lemma SameHolders(a: Room, b: Room)
    requires HostHolds(a) && |b.leases| == |a.leases| && b.hostPeerId == a.hostPeerId
    requires forall i :: 0 <= i < |a.leases| ==> b.leases[i].peerId == a.leases[i].peerId
    ensures HostHolds(b)
  {
    if a.leases != [] {
      var i :| Host(a, i);
      assert Host(b, i);
    }
  }

  lemma HostStays(room: Room)
    requires HostHolds(room) && room.leases != []
    ensures EnsureHost(room).hostPeerId == room.hostPeerId
  {
    HostHasLease(room);
    var i :| Host(room, i);
    assert EnsureHost(room).leases[i].peerId == room.hostPeerId;
  }

  /** Joining keeps the host; leaving gives the room a host among those who stay. */
  lemma MembersKeepHosts(rooms: Rooms, r: nat, s: Session, token: Token, p: nat)
    requires Hosted(rooms)
    ensures r in rooms ==> Hosted(Joined(rooms, r, s, token))
    ensures Hosted(Vacated(rooms, r, p))
  {
    hide EnsureHost, AllocateIP, Without;
    if r in rooms {
      EnsuredHolds(rooms[r].(leases := rooms[r].leases + [NewLease(rooms[r].leases, s, token)]));
      var i := Find(rooms[r].leases, p);
      if i < |rooms[r].leases| {
        EnsuredHolds(rooms[r].(leases := Without(rooms[r].leases, i)));
      }
    }
  }

  /** The founder is the host of a new room. */
  lemma FounderHosts(rooms: Rooms, r: nat, info: L.RoomInfo, s: Session, token: Token)
    requires Hosted(rooms)
    ensures var n := Joined(WithRoom(rooms, r, info, s.peerId), r, s, token); Hosted(n) && n[r].hostPeerId == s.peerId
  {
    hide EnsureHost, AllocateIP;
    var l := NewLease([], s, token);
    NewLeasePeer([], s, token);
    var room := Room(info, s.peerId, [] + [l]);
    assert Host(room, 0);
    EnsuredHolds(room);
    HostStays(room);
  }

  lemma {:induction false} SweepKeepsHosts(clients: Clients, rooms: Rooms, left: set<nat>, now: int, told: nat -> set<int>)
    requires Hosted(rooms) && left <= rooms.Keys
    ensures Hosted(Sweep(clients, rooms, left, now, told).1)
    decreases |left|
  {
    hide Survivors, EnsureHost, HostHolds;
    if left != {} {
      var r := L.MinKey(left);
      var one := Swept(clients, r, rooms[r], now, told);
      EnsuredHolds(rooms[r].(leases := Survivors(clients, r, rooms[r].leases, now, told).0));
      SweepKeepsHosts(one.1, rooms[r := one.0], left - {r}, now, told);
    }
  }

  /** Lease expiry gives every room that is left a host among those who stay. */
  lemma CleanedKeepsHosts(clients: Clients, rooms: Rooms, now: int, net: Net)
    requires Hosted(rooms)
    ensures Hosted(Cleaned(clients, rooms, now, net))
  {
    hide Sweep, HostHolds;
    SweepKeepsHosts(clients, rooms, rooms.Keys, now, net.told);
  }
}
