/**
 * What the handlers of the signalling server promise, said of sessions, leases and the room list
 * themselves and without the functions that compute the new state.
 */
module SignalTerms {
  import opened Bytes
  import opened Collections
  import opened SignalState
  import L = RoomList

  /** What onLogin reads from its payload. */
  datatype Resume = Resume(roomId: nat, peerId: nat, token: Token)
  datatype Login = Login(version: nat, name: seq<Byte>, nameValid: bool, resume: Option<Resume>)

  // ---------------------------------------------------------------- resuming

  /** The lease belongs to peer p and the token, and is online or not past its time. */
  ghost predicate Fits(l: Lease, p: nat, token: Token, now: int)
  {
    l.peerId == p && l.token == token && (l.online || l.expiresAt <= 0 || now <= l.expiresAt)
  }

  /** The room has a lease that the token opens. */
  ghost predicate Resumable(rooms: Rooms, w: Resume, now: int)
  {
    w.token != 0 && exists i :: InSlot(rooms, w.roomId, i) && Fits(rooms[w.roomId].leases[i], w.peerId, w.token, now)
  }

  ghost predicate MayResume(login: Option<Login>, rooms: Rooms, now: int)
  {
    && login.Some? && login.value.version == 9 && login.value.nameValid && login.value.resume.Some?
    && Resumable(rooms, login.value.resume.value, now)
  }

  /** The session has the identity that it asked for. */
  ghost predicate Holds(s: Session, w: Resume)
  {
    s.peerId == w.peerId && s.resumePeerId == w.peerId && s.resumeRoomId == w.roomId && s.resumeToken == w.token
  }

  /** The session keeps the name of the lease; one without a name takes the name given. */
  ghost predicate NamedAfter(s: Session, name: seq<Byte>, rooms: Rooms, w: Resume)
  {
    exists i :: InSlot(rooms, w.roomId, i) && rooms[w.roomId].leases[i].peerId == w.peerId
      && s.name == if rooms[w.roomId].leases[i].name == [] then name else rooms[w.roomId].leases[i].name
  }

  /** Another session with an identity has the name. */
  ghost predicate NameInUse(clients: Clients, f: int, name: seq<Byte>)
  {
    exists g :: g in clients && g != f && clients[g].peerId != 0 && clients[g].name == name
  }

  // ---------------------------------------------------------------- leases

  /** The lease of peer p in room r is online or offline as given, with the given time; all else is as
   * before, but for the host of room r. */
  ghost predicate Timed(rooms: Rooms, rooms': Rooms, r: nat, p: nat, online: bool, until: int)
  {
    && rooms'.Keys == rooms.Keys
    && (forall q :: q in rooms ==> rooms'[q].info == rooms[q].info && |rooms'[q].leases| == |rooms[q].leases|)
    && (forall q :: q in rooms && q != r ==> rooms'[q].hostPeerId == rooms[q].hostPeerId)
    && (forall q, i :: InSlot(rooms, q, i) ==>
          var l := rooms[q].leases[i];
          rooms'[q].leases[i] == if q == r && l.peerId == p then l.(online := online, expiresAt := until) else l)
  }

  /** The lease of peer p in room r is offline until the given time; everything else is as before. */
  ghost predicate OfflineUntil(rooms: Rooms, rooms': Rooms, r: nat, p: nat, until: int)
  {
    Timed(rooms, rooms', r, p, false, until) && (r in rooms ==> rooms'[r].hostPeerId == rooms[r].hostPeerId)
  }

  /** Room r has one more lease, for session s, under the lowest address that nobody in the room has; the
   * other rooms are as before. */
  ghost predicate OneMore(rooms: Rooms, rooms': Rooms, r: nat, s: Session, t: Session, token: Token)
    requires r in rooms
  {
    && rooms'.Keys == rooms.Keys && (forall q :: q in rooms && q != r ==> rooms'[q] == rooms[q])
    && rooms'[r].info == rooms[r].info && rooms'[r].leases == rooms[r].leases + [Lease(s.peerId, t.virtualIP, s.name, token, true, 0)]
    && 0x0A0A0002 <= t.virtualIP <= 0x0A0A00FE && !HasIP(rooms[r].leases, t.virtualIP)
    && (forall ip :: 0x0A0A0002 <= ip < t.virtualIP ==> HasIP(rooms[r].leases, ip))
    && t == s.(virtualIP := t.virtualIP, roomId := r, resumeRoomId := r, resumePeerId := s.peerId, resumeToken := token, state := InRoom,
               alive := t.alive)
  }

  /** The session sits on the lease. */
  ghost predicate SitsOn(s: Session, r: nat, l: Lease)
  {
    && s.state == InRoom && s.roomId == r && s.peerId == l.peerId && s.virtualIP == l.virtualIP && s.name == l.name
    && s.resumeRoomId == r && s.resumePeerId == l.peerId && s.resumeToken == l.token
  }

  ghost predicate SitsIn(s: Session, rooms: Rooms, w: Resume)
  {
    && s.roomId == w.roomId && s.peerId == w.peerId
    && exists i :: InSlot(rooms, w.roomId, i) && SitsOn(s, w.roomId, rooms[w.roomId].leases[i])
  }

  /** The lease of peer p in room r is gone, and the room with it if it was the only one; the other
   * leases keep their order, and the other rooms are as before. */
  ghost predicate OneLess(rooms: Rooms, rooms': Rooms, r: nat, p: nat)
    requires r in rooms
  {
    exists i: nat :: InSlot(rooms, r, i) && rooms[r].leases[i].peerId == p && Dropped(rooms, rooms', r, i)
  }

  ghost predicate Dropped(rooms: Rooms, rooms': Rooms, r: nat, i: nat)
    requires InSlot(rooms, r, i)
  {
    var leases := rooms[r].leases;
    if |leases| == 1 then rooms' == rooms - {r}
    else
      && rooms'.Keys == rooms.Keys && (forall q :: q in rooms && q != r ==> rooms'[q] == rooms[q])
      && rooms'[r].info == rooms[r].info && rooms'[r].leases == leases[..i] + leases[i + 1..]
  }

  // ---------------------------------------------------------------- the room list

  /** The list shows every room with the number of its leases and with its own settings. */
  ghost predicate Lists(list: L.Rooms, rooms: Rooms)
  {
    && list.Keys == rooms.Keys
    && forall r :: r in rooms ==>
         && list[r].players == |rooms[r].leases| && list[r].name == rooms[r].info.name
         && list[r].maxPlayers == rooms[r].info.maxPlayers && list[r].tcp == rooms[r].info.tcp && list[r].udp == rooms[r].info.udp
         && list[r].password == rooms[r].info.password && list[r].mtu == rooms[r].info.mtu
  }

  /** Room r has one player more, and nothing else has changed. */
  ghost predicate OnePlayerMore(list: L.Rooms, list': L.Rooms, r: nat)
  {
    r in list && list[r].players < 255 && list' == list[r := list[r].(players := list[r].players + 1)]
  }

  /** Room r has one player less, or is gone with its last one, and nothing else has changed. */
  ghost predicate OnePlayerLess(list: L.Rooms, list': L.Rooms, r: nat)
  {
    && r in list && 0 < list[r].players
    && list' == if list[r].players == 1 then list - {r} else list[r := list[r].(players := list[r].players - 1)]
  }

  /** A list that shows the rooms after a join. */
  lemma ListsMore(list: L.Rooms, rooms: Rooms, list': L.Rooms, rooms': Rooms, r: nat, s: Session, t: Session, token: Token)
    requires r in rooms && Lists(list, rooms) && Lists(list', rooms') && OneMore(rooms, rooms', r, s, t, token)
    ensures OnePlayerMore(list, list', r) && list' != list
  {
    assert list'[r].players == |rooms[r].leases| + 1;
    assert list'.Keys == list.Keys;
    forall q | q in list'
      ensures q in list && (q != r ==> list'[q] == list[q])
    {
      assert q in rooms'.Keys && q in rooms.Keys;
    }
  }

  /** A list that shows the rooms after a room was created and joined. */
  lemma ListsNew(list: L.Rooms, rooms: Rooms, list': L.Rooms, rooms': Rooms, r: nat, info: L.RoomInfo, host: nat, s: Session, t: Session,
      token: Token)
    requires r !in rooms && Lists(list, rooms) && Lists(list', rooms')
    requires OneMore(rooms[r := Room(info, host, [])], rooms', r, s, t, token)
    ensures list' == list[r := info.(players := 1)] && list' != list
  {
    var founded := rooms[r := Room(info, host, [])];
    assert list'[r].players == |rooms'[r].leases| == 1;
    assert list'.Keys == list.Keys + {r};
    assert r in list'.Keys && r !in list.Keys;
    forall q | q in list' && q != r
      ensures q in list && list'[q] == list[q]
    {
      assert q in rooms'.Keys && q in rooms.Keys && rooms'[q] == founded[q] == rooms[q];
    }
  }

  /** A list that shows the rooms after a lease has gone. */
  lemma ListsLess(list: L.Rooms, rooms: Rooms, list': L.Rooms, rooms': Rooms, r: nat, p: nat)
    requires r in rooms && Lists(list, rooms) && Lists(list', rooms') && OneLess(rooms, rooms', r, p)
    ensures OnePlayerLess(list, list', r) && list' != list
  {
    var i: nat :| InSlot(rooms, r, i) && rooms[r].leases[i].peerId == p && Dropped(rooms, rooms', r, i);
    if |rooms[r].leases| == 1 {
      assert rooms'.Keys == rooms.Keys - {r};
      assert r in list.Keys && r !in list'.Keys;
      forall q | q in list'
        ensures q in list && list'[q] == list[q] && q != r
      {
        assert q in rooms'.Keys && q in rooms.Keys && rooms'[q] == rooms[q];
      }
      assert list' == list - {r};
    } else {
      assert list'.Keys == list.Keys;
      assert list'[r].players == |rooms[r].leases| - 1;
      forall q | q in list'
        ensures q in list && (q != r ==> list'[q] == list[q])
      {
        assert q in rooms'.Keys && q in rooms.Keys;
      }
    }
  }
}
