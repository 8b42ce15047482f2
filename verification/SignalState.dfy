/**
 * Sessions, room leases and peer ids of the signalling server, as values: the invariant that
 * keeps identities apart, and what each kind of change needs in order to keep it.
 */
module SignalState {
  import opened Bytes
  import L = RoomList

  const MAX_PLAYERS: nat := 8
  const SUBNET: nat := 0x0A0A0000
  const FIRST_SUFFIX: nat := 2
  const LAST_SUFFIX: nat := 254
  const LEASE_TIMEOUT: nat := 120

  datatype SessionState =
    | AwaitHello | AwaitServerAuth | AwaitLogin | LoggedIn | AwaitRoomPassword | ResumePending | InRoom | Closing

  /** A reconnect token by its value; the all-zero token is 0. */
  type Token = nat

  datatype Session = Session(peerId: nat, virtualIP: nat, roomId: nat, name: seq<Byte>, alive: bool, state: SessionState,
    serverAuthOk: bool, secureEnabled: bool, pendingJoinRoomId: nat, resumeRoomId: nat, resumePeerId: nat, resumeToken: Token)

  datatype Lease = Lease(peerId: nat, virtualIP: nat, name: seq<Byte>, token: Token, online: bool, expiresAt: int)

  datatype Room = Room(info: L.RoomInfo, hostPeerId: nat, leases: seq<Lease>)

  type Rooms = map<nat, Room>
  type Clients = map<int, Session>

  datatype Core = Core(clients: Clients, peerMap: map<nat, int>, free: set<nat>, next: nat, rooms: Rooms)

  predicate HasIdentity(s: SessionState)
  {
    s == LoggedIn || s == AwaitRoomPassword || s == ResumePending || s == InRoom
  }

  // ---------------------------------------------------------------- rooms and leases

  predicate InSlot(rooms: Rooms, r: nat, i: int)
  {
    r in rooms && 0 <= i < |rooms[r].leases|
  }

  ghost predicate HasLease(rooms: Rooms, r: nat, p: nat)
  {
    exists i :: InSlot(rooms, r, i) && rooms[r].leases[i].peerId == p
  }

  ghost predicate NoLease(rooms: Rooms, p: nat)
  {
    forall r, i :: InSlot(rooms, r, i) ==> rooms[r].leases[i].peerId != p
  }

  /** leaseByPeerId, as an index; the number of leases stands for none. */
  function Find(leases: seq<Lease>, p: nat): (i: nat)
    ensures i <= |leases| && (i < |leases| ==> leases[i].peerId == p)
    ensures forall j :: 0 <= j < i ==> leases[j].peerId != p
  {
    if leases == [] then 0 else if leases[0].peerId == p then 0 else 1 + Find(leases[1..], p)
  }

  function FirstOnline(leases: seq<Lease>): (i: nat)
    ensures i <= |leases| && (i < |leases| ==> leases[i].online)
  {
    if leases == [] then 0 else if leases[0].online then 0 else 1 + FirstOnline(leases[1..])
  }

  /** ensureHost */
  function EnsureHost(room: Room): (r: Room)
    ensures r == room.(hostPeerId := r.hostPeerId)
  {
    if room.leases == [] then room.(hostPeerId := 0)
    else if Find(room.leases, room.hostPeerId) < |room.leases| then room
    else
      var i := FirstOnline(room.leases);
      room.(hostPeerId := if i < |room.leases| then room.leases[i].peerId else room.leases[0].peerId)
  }

  /** The host is one of the lease holders, or 0 in an empty room. A host that still has a lease stays; the
   * next one is the first that is online, if anybody is. */
  lemma HostHasLease(room: Room)
    ensures var r := EnsureHost(room);
      && r.leases == room.leases && r.info == room.info
      && (r.leases == [] ==> r.hostPeerId == 0)
      && (r.leases != [] ==> exists i :: Host(r, i))
      && ((exists i :: 0 <= i < |r.leases| && r.leases[i].peerId == room.hostPeerId) ==> r.hostPeerId == room.hostPeerId)
      && (r.leases != [] && r.hostPeerId != room.hostPeerId ==> exists i :: NextHost(r, i))
  {
    if room.leases != [] {
      var r, k := EnsureHost(room), FirstOnline(room.leases);
      FirstOnlineMeans(room.leases);
      var at := if k < |room.leases| then k else 0;
      var i := Find(room.leases, room.hostPeerId);
      assert i < |room.leases| ==> Host(r, i);
      assert i == |room.leases| ==> Host(r, at) && NextHost(r, at);
    }
  }

  ghost predicate Host(room: Room, i: int)
  {
    0 <= i < |room.leases| && room.leases[i].peerId == room.hostPeerId
  }

  /** The host is the first lease holder that is online, or the first of all if none is. */
  ghost predicate NextHost(room: Room, i: int)
  {
    && Host(room, i)
    && if room.leases[i].online then forall j :: 0 <= j < i ==> !room.leases[j].online
       else i == 0 && forall j :: 0 <= j < |room.leases| ==> !room.leases[j].online
  }

  lemma {:induction false} FirstOnlineMeans(leases: seq<Lease>)
    ensures forall j :: 0 <= j < FirstOnline(leases) ==> !leases[j].online
  {
    if leases != [] && !leases[0].online {
      FirstOnlineMeans(leases[1..]);
      assert forall j :: 0 < j < |leases| ==> leases[j] == leases[1..][j - 1];
    }
  }

  function Without(leases: seq<Lease>, i: nat): (r: seq<Lease>)
    requires i < |leases|
  {
    leases[..i] + leases[i + 1..]
  }

  predicate HasIP(leases: seq<Lease>, ip: nat)
  {
    exists i :: 0 <= i < |leases| && leases[i].virtualIP == ip
  }

  // ---------------------------------------------------------------- the invariant

  /** No peer id has two leases, in one room or in two. */
  ghost predicate Distinct(rooms: Rooms)
  {
    forall r, i, q, j :: InSlot(rooms, r, i) && InSlot(rooms, q, j) && rooms[r].leases[i].peerId == rooms[q].leases[j].peerId ==>
      r == q && i == j
  }

  ghost predicate LeaseOk(l: Lease, free: set<nat>, next: nat)
  {
    0 < l.peerId < next && l.peerId !in free && l.token != 0
  }

  ghost predicate LeasesOk(rooms: Rooms, free: set<nat>, next: nat)
  {
    forall r, i :: InSlot(rooms, r, i) ==> LeaseOk(rooms[r].leases[i], free, next)
  }

  /** What the state of a session says about its fields. */
  ghost predicate SessionOk(s: Session)
  {
    && (HasIdentity(s.state) <==> s.peerId != 0)
    && (s.state == InRoom <==> s.roomId != 0)
    && (s.state == ResumePending ==> s.resumePeerId == s.peerId && s.resumeRoomId != 0 && s.resumeToken != 0)
    && (HasIdentity(s.state) || s.state == AwaitLogin ==> s.serverAuthOk && s.secureEnabled)
  }

  /** The index finds the owner of every peer id in use; ids in use are not free. */
  ghost predicate Indexed(s: Session, f: int, peerMap: map<nat, int>, free: set<nat>, next: nat)
  {
    s.peerId != 0 ==> s.peerId in peerMap && peerMap[s.peerId] == f && s.peerId < next && s.peerId !in free
  }

  ghost predicate ClientsOk(c: Core)
  {
    forall f :: f in c.clients ==> SessionOk(c.clients[f]) && Indexed(c.clients[f], f, c.peerMap, c.free, c.next)
  }

  /** A lease whose peer id belongs to a session belongs to that session: it sits in the session's
   * room with the session's address, or is the one it is about to resume. */
  ghost predicate Matches(s: Session, r: nat, l: Lease)
  {
    || (s.state == InRoom && s.roomId == r && s.virtualIP == l.virtualIP)
    || (s.state == ResumePending && s.resumeRoomId == r && s.resumeToken == l.token)
  }

  ghost predicate Matched(clients: Clients, rooms: Rooms)
  {
    forall f, r, i :: f in clients && InSlot(rooms, r, i) && rooms[r].leases[i].peerId == clients[f].peerId ==>
      Matches(clients[f], r, rooms[r].leases[i])
  }

  ghost predicate Seated(clients: Clients, rooms: Rooms)
  {
    forall f :: f in clients && clients[f].alive && clients[f].state == InRoom ==>
      HasLease(rooms, clients[f].roomId, clients[f].peerId)
  }

  ghost predicate Inv(c: Core)
  {
    && 0 < c.next && (forall p :: p in c.free ==> 0 < p < c.next)
    && ClientsOk(c) && Distinct(c.rooms) && LeasesOk(c.rooms, c.free, c.next)
    && Matched(c.clients, c.rooms) && Seated(c.clients, c.rooms)
  }

  ghost predicate NoSession(clients: Clients, p: nat)
  {
    forall f :: f in clients ==> clients[f].peerId != p
  }

  // ---------------------------------------------------------------- what the invariant means

  /** Identity safety: a peer id belongs to at most one session and to at most one lease, a free id
   * to neither, and an alive session in a room holds a lease there with its own address. */
  lemma Identity(c: Core)
    requires Inv(c)
    ensures forall f, g :: f in c.clients && g in c.clients && c.clients[f].peerId == c.clients[g].peerId != 0 ==> f == g
    ensures Distinct(c.rooms)
    ensures forall p :: p in c.free ==> NoSession(c.clients, p) && NoLease(c.rooms, p)
    ensures forall f :: f in c.clients && c.clients[f].alive && c.clients[f].state == InRoom ==> OwnSeat(c.clients[f], c.rooms)
  {
    forall f | f in c.clients && c.clients[f].alive && c.clients[f].state == InRoom
      ensures OwnSeat(c.clients[f], c.rooms)
    {
      var s := c.clients[f];
      var i :| InSlot(c.rooms, s.roomId, i) && c.rooms[s.roomId].leases[i].peerId == s.peerId;
      assert Matches(s, s.roomId, c.rooms[s.roomId].leases[i]);
    }
  }

  /** The session holds a lease in its room with its own virtual address. */
  ghost predicate OwnSeat(s: Session, rooms: Rooms)
  {
    exists i :: InSlot(rooms, s.roomId, i)
      && rooms[s.roomId].leases[i].peerId == s.peerId && rooms[s.roomId].leases[i].virtualIP == s.virtualIP
  }

  lemma OneOwner(c: Core, f: int, g: int)
    requires Inv(c) && f in c.clients && g in c.clients && c.clients[f].peerId == c.clients[g].peerId != 0
    ensures f == g
  {
  }

  // ---------------------------------------------------------------- changes that keep it

  ghost predicate SameLease(a: Lease, b: Lease)
  {
    a.peerId == b.peerId && a.virtualIP == b.virtualIP && a.token == b.token
  }

  /** Only lease times, online marks and hosts differ. */
  ghost predicate Marked(rooms: Rooms, rooms': Rooms)
  {
    && rooms'.Keys == rooms.Keys
    && (forall r :: r in rooms ==> rooms'[r].info == rooms[r].info && |rooms'[r].leases| == |rooms[r].leases|)
    && (forall r, i :: InSlot(rooms, r, i) ==> SameLease(rooms[r].leases[i], rooms'[r].leases[i]))
  }

  lemma MarkedSlots(rooms: Rooms, rooms': Rooms)
    requires Marked(rooms, rooms')
    ensures forall r, i :: InSlot(rooms', r, i) ==> InSlot(rooms, r, i) && SameLease(rooms[r].leases[i], rooms'[r].leases[i])
    ensures forall r, p :: HasLease(rooms, r, p) ==> HasLease(rooms', r, p)
  {
    forall r, i | InSlot(rooms', r, i)
      ensures InSlot(rooms, r, i) && SameLease(rooms[r].leases[i], rooms'[r].leases[i])
    {
      assert r in rooms'.Keys;
      assert InSlot(rooms, r, i);
    }
    forall r, p | HasLease(rooms, r, p)
      ensures HasLease(rooms', r, p)
    {
      var i :| InSlot(rooms, r, i) && rooms[r].leases[i].peerId == p;
      assert r in rooms.Keys;
      assert InSlot(rooms', r, i);
    }
  }

  lemma MarkedKeeps(c: Core, rooms': Rooms)
    requires Inv(c) && Marked(c.rooms, rooms')
    ensures Inv(c.(rooms := rooms'))
  {
    hide Marked, HasLease;
    MarkedSlots(c.rooms, rooms');
    forall f, r, i | f in c.clients && InSlot(rooms', r, i) && rooms'[r].leases[i].peerId == c.clients[f].peerId
      ensures Matches(c.clients[f], r, rooms'[r].leases[i])
    {
      assert Matches(c.clients[f], r, c.rooms[r].leases[i]);
    }
  }

  /** rooms' is rooms without the lease at slot (r, i); the hosts may differ. */
  ghost predicate Taken(rooms: Rooms, rooms': Rooms, r: nat, i: nat)
  {
    && InSlot(rooms, r, i) && rooms'.Keys == rooms.Keys
    && rooms'[r].leases == Without(rooms[r].leases, i) && rooms'[r].info == rooms[r].info
    && (forall q :: q in rooms && q != r ==> rooms'[q] == rooms[q])
  }

  /** Where a lease of rooms' was before. */
  ghost function Before(r: nat, i: nat, q: nat, j: int): int
  {
    if q == r && j >= i then j + 1 else j
  }

  lemma TakenSlots(rooms: Rooms, rooms': Rooms, r: nat, i: nat, q: nat, j: int)
    requires Taken(rooms, rooms', r, i) && InSlot(rooms', q, j)
    ensures InSlot(rooms, q, Before(r, i, q, j)) && rooms'[q].leases[j] == rooms[q].leases[Before(r, i, q, j)]
    ensures !(q == r && Before(r, i, q, j) == i)
  {
    assert q in rooms'.Keys;
  }

  lemma TakenKeepsOthers(rooms: Rooms, rooms': Rooms, r: nat, i: nat, q: nat, p: nat)
    requires Taken(rooms, rooms', r, i) && HasLease(rooms, q, p) && (q != r || p != rooms[r].leases[i].peerId)
    ensures HasLease(rooms', q, p)
  {
    var k :| InSlot(rooms, q, k) && rooms[q].leases[k].peerId == p;
    assert q in rooms.Keys;
    var j := if q == r && k > i then k - 1 else k;
    assert InSlot(rooms', q, j) && rooms'[q].leases[j] == rooms[q].leases[k];
  }

  /** A lease may go unless it seats an alive session. */
  lemma TakenKeeps(c: Core, rooms': Rooms, r: nat, i: nat)
    requires Inv(c) && Taken(c.rooms, rooms', r, i)
    requires forall f :: f in c.clients && c.clients[f].alive && c.clients[f].state == InRoom ==>
      c.clients[f].peerId != c.rooms[r].leases[i].peerId
    ensures Inv(c.(rooms := rooms'))
    ensures NoLease(rooms', c.rooms[r].leases[i].peerId)
  {
    hide Taken, HasLease, Before;
    TakenFrom(c.rooms, rooms', r, i);
    forall q, j | InSlot(rooms', q, j)
      ensures LeaseOk(rooms'[q].leases[j], c.free, c.next) && rooms'[q].leases[j].peerId != c.rooms[r].leases[i].peerId
      ensures forall f :: f in c.clients && rooms'[q].leases[j].peerId == c.clients[f].peerId ==> Matches(c.clients[f], q, rooms'[q].leases[j])
    {
      TakenSlots(c.rooms, rooms', r, i, q, j);
    }
    forall q, j, s, k | InSlot(rooms', q, j) && InSlot(rooms', s, k) && rooms'[q].leases[j].peerId == rooms'[s].leases[k].peerId
      ensures q == s && j == k
    {
      TakenSlots(c.rooms, rooms', r, i, q, j);
      TakenSlots(c.rooms, rooms', r, i, s, k);
      BeforeInjective(r, i, q, j, k);
    }
    forall f | f in c.clients && c.clients[f].alive && c.clients[f].state == InRoom
      ensures HasLease(rooms', c.clients[f].roomId, c.clients[f].peerId)
    {
      TakenKeepsOthers(c.rooms, rooms', r, i, c.clients[f].roomId, c.clients[f].peerId);
    }
  }

  lemma TakenFrom(rooms: Rooms, rooms': Rooms, r: nat, i: nat)
    requires Taken(rooms, rooms', r, i)
    ensures InSlot(rooms, r, i)
  {
  }

  lemma BeforeInjective(r: nat, i: nat, q: nat, j: int, k: int)
    requires Before(r, i, q, j) == Before(r, i, q, k)
    ensures j == k
  {
  }

  lemma EraseKeeps(c: Core, r: nat)
    requires Inv(c) && r in c.rooms && c.rooms[r].leases == []
    ensures Inv(c.(rooms := c.rooms - {r}))
  {
    hide HasLease, Matches;
    var rooms' := c.rooms - {r};
    assert forall q, i :: InSlot(rooms', q, i) ==> InSlot(c.rooms, q, i) && rooms'[q] == c.rooms[q];
    forall q, p | HasLease(c.rooms, q, p)
      ensures HasLease(rooms', q, p)
    {
      EraseSeat(c.rooms, r, q, p);
    }
  }

  lemma EraseSeat(rooms: Rooms, r: nat, q: nat, p: nat)
    requires HasLease(rooms, q, p) && r in rooms && rooms[r].leases == []
    ensures HasLease(rooms - {r}, q, p)
  {
    var i :| InSlot(rooms, q, i) && rooms[q].leases[i].peerId == p;
    assert InSlot(rooms - {r}, q, i);
  }

  /** An id that nobody uses may be freed. */
  lemma FreeKeeps(c: Core, p: nat)
    requires Inv(c) && 0 < p < c.next && NoSession(c.clients, p) && NoLease(c.rooms, p)
    ensures Inv(c.(free := c.free + {p}))
  {
    hide HasLease, Matches, SessionOk;
    var c' := c.(free := c.free + {p});
    forall r, i | InSlot(c.rooms, r, i)
      ensures LeaseOk(c.rooms[r].leases[i], c'.free, c'.next)
    {
      assert LeaseOk(c.rooms[r].leases[i], c.free, c.next);
    }
  }

  /** A session may change as long as its own facts hold. */
  lemma SessionKeeps(c: Core, f: int, s: Session)
    requires Inv(c) && SessionOk(s) && Indexed(s, f, c.peerMap, c.free, c.next)
    requires forall r, i :: InSlot(c.rooms, r, i) && c.rooms[r].leases[i].peerId == s.peerId ==> Matches(s, r, c.rooms[r].leases[i])
    requires s.alive && s.state == InRoom ==> HasLease(c.rooms, s.roomId, s.peerId)
    ensures Inv(c.(clients := c.clients[f := s]))
  {
    hide HasLease, Matches, SessionOk, Indexed, LeaseOk;
  }

  /** A session without identity has no lease to match. */
  lemma AnonymousKeeps(c: Core, f: int, s: Session)
    requires Inv(c) && SessionOk(s) && s.peerId == 0
    ensures Inv(c.(clients := c.clients[f := s]))
  {
    hide HasLease, Matches;
    forall r, i | InSlot(c.rooms, r, i)
      ensures c.rooms[r].leases[i].peerId != 0
    {
      assert LeaseOk(c.rooms[r].leases[i], c.free, c.next);
    }
    SessionKeeps(c, f, s);
  }

  /** Losing the connection of a session never hurts. */
  lemma DieKeeps(c: Core, f: int)
    requires Inv(c) && f in c.clients
    ensures Inv(c.(clients := c.clients[f := c.clients[f].(alive := false)]))
  {
    hide HasLease;
    SessionKeeps(c, f, c.clients[f].(alive := false));
  }

  lemma DropKeeps(c: Core, f: int)
    requires Inv(c)
    ensures Inv(c.(clients := c.clients - {f}))
  {
    hide HasLease, Matches, SessionOk, Indexed, LeaseOk;
  }

  /** An index entry may go if no session owns the id. */
  lemma UnindexKeeps(c: Core, p: nat)
    requires Inv(c) && NoSession(c.clients, p)
    ensures Inv(c.(peerMap := c.peerMap - {p}))
  {
    hide HasLease, Matches, SessionOk, LeaseOk;
  }

  /** The index may point a free-standing id to any connection. */
  lemma IndexKeeps(c: Core, p: nat, f: int)
    requires Inv(c) && NoSession(c.clients, p)
    ensures Inv(c.(peerMap := c.peerMap[p := f]))
  {
    hide HasLease, Matches, SessionOk, LeaseOk;
  }

  /** An id leaves the free list, or the counter moves on. */
  lemma AllocateKeeps(c: Core, p: nat)
    requires Inv(c) && (p in c.free || p == c.next)
    ensures var c' := if p in c.free then c.(free := c.free - {p}) else c.(next := c.next + 1);
      Inv(c') && 0 < p < c'.next && p !in c'.free && NoSession(c'.clients, p) && NoLease(c'.rooms, p)
  {
    hide HasLease, Matches, SessionOk;
    var c' := if p in c.free then c.(free := c.free - {p}) else c.(next := c.next + 1);
    forall r, i | InSlot(c.rooms, r, i)
      ensures LeaseOk(c.rooms[r].leases[i], c'.free, c'.next) && c.rooms[r].leases[i].peerId != p
    {
      assert LeaseOk(c.rooms[r].leases[i], c.free, c.next);
    }
    forall f | f in c.clients
      ensures Indexed(c.clients[f], f, c'.peerMap, c'.free, c'.next) && c.clients[f].peerId != p
    {
      assert Indexed(c.clients[f], f, c.peerMap, c.free, c.next);
    }
  }

  /** rooms' is rooms with one more lease at the end of room r, which may be new. */
  ghost predicate Given(rooms: Rooms, rooms': Rooms, r: nat, l: Lease)
  {
    && rooms'.Keys == rooms.Keys + {r}
    && rooms'[r].leases == (if r in rooms then rooms[r].leases else []) + [l]
    && (forall q :: q in rooms && q != r ==> rooms'[q].leases == rooms[q].leases)
  }

  lemma GivenSlots(rooms: Rooms, rooms': Rooms, r: nat, l: Lease)
    requires Given(rooms, rooms', r, l)
    ensures forall q, j :: InSlot(rooms', q, j) ==>
      if InSlot(rooms, q, j) then rooms'[q].leases[j] == rooms[q].leases[j]
      else q == r && j == |rooms'[r].leases| - 1 && rooms'[q].leases[j] == l
    ensures forall q, p :: HasLease(rooms, q, p) ==> HasLease(rooms', q, p)
    ensures HasLease(rooms', r, l.peerId)
  {
    forall q, j | InSlot(rooms', q, j)
      ensures if InSlot(rooms, q, j) then rooms'[q].leases[j] == rooms[q].leases[j]
              else q == r && j == |rooms'[r].leases| - 1 && rooms'[q].leases[j] == l
    {
      assert q in rooms'.Keys;
    }
    forall q, p | HasLease(rooms, q, p)
      ensures HasLease(rooms', q, p)
    {
      var i :| InSlot(rooms, q, i) && rooms[q].leases[i].peerId == p;
      assert q in rooms'.Keys;
      assert InSlot(rooms', q, i) && rooms'[q].leases[i] == rooms[q].leases[i];
    }
    assert r in rooms'.Keys;
    assert InSlot(rooms', r, |rooms'[r].leases| - 1);
  }

  /** A session without a lease takes a seat in a room. */
  lemma SeatKeeps(c: Core, rooms': Rooms, f: int, r: nat, l: Lease, s: Session)
    requires Inv(c) && f in c.clients && Given(c.rooms, rooms', r, l)
    requires l.peerId == c.clients[f].peerId == s.peerId != 0 && l.token != 0 && NoLease(c.rooms, l.peerId)
    requires SessionOk(s) && s.state == InRoom && s.roomId == r && s.virtualIP == l.virtualIP
    ensures Inv(c.(rooms := rooms', clients := c.clients[f := s]))
  {
    hide HasLease, Given;
    GivenSlots(c.rooms, rooms', r, l);
    var clients' := c.clients[f := s];
    forall q, j | InSlot(rooms', q, j)
      ensures LeaseOk(rooms'[q].leases[j], c.free, c.next)
      ensures forall g :: g in clients' && rooms'[q].leases[j].peerId == clients'[g].peerId ==> Matches(clients'[g], q, rooms'[q].leases[j])
    {
      assert Indexed(c.clients[f], f, c.peerMap, c.free, c.next);
      if InSlot(c.rooms, q, j) {
        assert LeaseOk(c.rooms[q].leases[j], c.free, c.next);
      } else {
        forall g | g in clients' && clients'[g].peerId == l.peerId
          ensures g == f
        {
          if g != f {
            OneOwner(c, f, g);
          }
        }
      }
    }
  }

  lemma NoLeaseOf(c: Core, f: int)
    requires Inv(c) && f in c.clients && c.clients[f].peerId != 0
    requires c.clients[f].state == LoggedIn || c.clients[f].state == AwaitRoomPassword
    ensures NoLease(c.rooms, c.clients[f].peerId)
  {
    hide HasLease;
    forall r, i | InSlot(c.rooms, r, i)
      ensures c.rooms[r].leases[i].peerId != c.clients[f].peerId
    {
      assert c.rooms[r].leases[i].peerId == c.clients[f].peerId ==> Matches(c.clients[f], r, c.rooms[r].leases[i]);
    }
  }

  // ---------------------------------------------------------------- leaving a room

  /** removeLease with its ensureHost. */
  function WithoutLease(rooms: Rooms, r: nat, p: nat): (n: Rooms)
    requires r in rooms
  {
    var i := Find(rooms[r].leases, p);
    if i == |rooms[r].leases| then rooms
    else rooms[r := EnsureHost(rooms[r].(leases := Without(rooms[r].leases, i)))]
  }

  /** removeLease, and eraseRoom for a room left empty. */
  function Vacated(rooms: Rooms, r: nat, p: nat): (n: Rooms)
  {
    if r !in rooms then rooms
    else
      var n := WithoutLease(rooms, r, p);
      if n[r].leases == [] then n - {r} else n
  }

  lemma WithoutTakes(rooms: Rooms, r: nat, p: nat)
    requires r in rooms && Find(rooms[r].leases, p) < |rooms[r].leases|
    ensures Taken(rooms, WithoutLease(rooms, r, p), r, Find(rooms[r].leases, p))
    ensures rooms[r].leases[Find(rooms[r].leases, p)].peerId == p
  {
    var i := Find(rooms[r].leases, p);
    assert InSlot(rooms, r, i);
  }

  /** A lease whose owner, if alive, sits elsewhere or nowhere may be vacated with its room. */
  lemma VacateKeeps(c: Core, r: nat, p: nat)
    requires Inv(c)
    requires forall f :: f in c.clients && c.clients[f].alive && c.clients[f].state == InRoom ==> c.clients[f].peerId != p
    ensures Inv(c.(rooms := Vacated(c.rooms, r, p)))
    ensures (forall q, i :: InSlot(c.rooms, q, i) && c.rooms[q].leases[i].peerId == p ==> q == r) ==>
      NoLease(Vacated(c.rooms, r, p), p)
  {
    hide Inv, Taken, Without, EnsureHost;
    if r in c.rooms {
      var i := Find(c.rooms[r].leases, p);
      var n := WithoutLease(c.rooms, r, p);
      if i < |c.rooms[r].leases| {
        WithoutTakes(c.rooms, r, p);
        TakenKeeps(c, n, r, i);
      }
      assert r in n;
      if n[r].leases == [] {
        EraseKeeps(c.(rooms := n), r);
      }
    }
  }

  /** A session gives up its seat and its lease, and becomes s. */
  lemma LeaveKeeps(c: Core, f: int, r: nat, s: Session)
    requires Inv(c) && f in c.clients && c.clients[f].peerId != 0
    requires forall q, i :: InSlot(c.rooms, q, i) && c.rooms[q].leases[i].peerId == c.clients[f].peerId ==> q == r
    requires SessionOk(s) && s.state != InRoom && (s.peerId == 0 || s.peerId == c.clients[f].peerId)
    ensures Inv(c.(rooms := Vacated(c.rooms, r, c.clients[f].peerId), clients := c.clients[f := s]))
    ensures NoLease(Vacated(c.rooms, r, c.clients[f].peerId), c.clients[f].peerId)
  {
    hide InSlot, Vacated, HasLease, Distinct, LeasesOk, Matched, Seated, SessionOk;
    var p := c.clients[f].peerId;
    var dead := c.clients[f].(alive := false);
    DieKeeps(c, f);
    var c1 := c.(clients := c.clients[f := dead]);
    forall g | g in c1.clients && c1.clients[g].alive && c1.clients[g].state == InRoom
      ensures c1.clients[g].peerId != p
    {
      if c1.clients[g].peerId == p {
        OneOwner(c, f, g);
      }
    }
    VacateKeeps(c1, r, p);
    var c2 := c1.(rooms := Vacated(c.rooms, r, p));
    assert Indexed(c.clients[f], f, c.peerMap, c.free, c.next);
    if s.peerId == 0 {
      AnonymousKeeps(c2, f, s);
    } else {
      SessionKeeps(c2, f, s);
    }
    assert c.clients[f := dead][f := s] == c.clients[f := s];
  }

  /** An InRoom session's lease can only be in its room, a pending one's in the room to resume. */
  lemma LeaseRoom(c: Core, f: int)
    requires Inv(c) && f in c.clients && c.clients[f].peerId != 0
    ensures c.clients[f].state == InRoom ==> forall q, i :: InSlot(c.rooms, q, i) && c.rooms[q].leases[i].peerId == c.clients[f].peerId ==>
      q == c.clients[f].roomId
    ensures c.clients[f].state == ResumePending ==> forall q, i :: InSlot(c.rooms, q, i) && c.rooms[q].leases[i].peerId == c.clients[f].peerId ==>
      q == c.clients[f].resumeRoomId && c.rooms[q].leases[i].token == c.clients[f].resumeToken
  {
    hide HasLease, SessionOk;
    forall q, i | InSlot(c.rooms, q, i) && c.rooms[q].leases[i].peerId == c.clients[f].peerId
      ensures Matches(c.clients[f], q, c.rooms[q].leases[i])
    {
    }
  }

  /** A new room without leases changes nothing. */
  lemma NewRoomKeeps(c: Core, r: nat, room: Room)
    requires Inv(c) && r !in c.rooms && room.leases == []
    ensures Inv(c.(rooms := c.rooms[r := room]))
    ensures forall p :: NoLease(c.rooms, p) ==> NoLease(c.rooms[r := room], p)
  {
    hide HasLease, Matches, SessionOk, Indexed, LeaseOk;
    var rooms' := c.rooms[r := room];
    assert forall q, i :: InSlot(rooms', q, i) ==> InSlot(c.rooms, q, i) && rooms'[q] == c.rooms[q];
    forall q, p | HasLease(c.rooms, q, p)
      ensures HasLease(rooms', q, p)
    {
      NewRoomSeat(c.rooms, r, room, q, p);
    }
  }

  lemma NewRoomSeat(rooms: Rooms, r: nat, room: Room, q: nat, p: nat)
    requires HasLease(rooms, q, p) && r !in rooms
    ensures HasLease(rooms[r := room], q, p)
  {
    var i :| InSlot(rooms, q, i) && rooms[q].leases[i].peerId == p;
    assert InSlot(rooms[r := room], q, i);
  }
}
