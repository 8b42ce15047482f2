/**
 * The handlers of SignalServer that create, move and end identities: login, takeover, resume,
 * create, join, leave, logout, disconnect and lease expiry. What a handler reads from a message
 * and whether the transport accepts a response are parameters; now is the clock.
 */
module SignalServer {
  import opened Bytes
  import opened Collections
  import opened SignalState
  import opened SignalTerms
  import L = RoomList
  import R = RoomReplica
  import RR = RoomReplication

  datatype Reason = Network | LogoutComplete | Takeover

  /** The sends of one handler. Each send can end the connection of the session it goes to, on a
   * socket error or a refused budget: accepted says that the answer to the requester did not, told(p)
   * are the sessions lost while a room hears that peer p has left, pushed those lost to the room list
   * that lease expiry sends, after those lost to the messages that follow the answer. */
  datatype Net = Net(accepted: bool, told: nat -> set<int>, pushed: set<int>, after: set<int>)

  /** The sessions, some of which have lost their connection. */
  ghost function Lose(clients: Clients, dead: set<int>): (n: Clients)
    ensures n.Keys == clients.Keys
  {
    map f | f in clients :: if f in dead then clients[f].(alive := false) else clients[f]
  }

  lemma LoseAt(clients: Clients, dead: set<int>, f: int)
    requires f in clients
    ensures f in Lose(clients, dead) && Lose(clients, dead)[f] == clients[f].(alive := clients[f].alive && f !in dead)
  {
  }

  /** Losing connections never hurts. */
  lemma LoseKeeps(c: Core, dead: set<int>)
    requires Inv(c)
    ensures Inv(c.(clients := Lose(c.clients, dead)))
  {
    hide HasLease;
  }

  /** A message to session f alone. */
  ghost function Answered(clients: Clients, f: int, net: Net): (n: Clients)
    requires f in clients
    ensures f in n
  {
    clients[f := clients[f].(alive := clients[f].alive && net.accepted)]
  }

  // ---------------------------------------------------------------- rooms as a whole

  ghost predicate RoomOk(room: Room)
  {
    && |room.leases| <= room.info.maxPlayers <= MAX_PLAYERS && |room.info.name| <= L.MAX_ROOM_NAME
    && (forall i, j :: 0 <= i < j < |room.leases| ==> room.leases[i].virtualIP != room.leases[j].virtualIP)
    && (forall i :: 0 <= i < |room.leases| ==> SUBNET + FIRST_SUFFIX <= room.leases[i].virtualIP <= SUBNET + LAST_SUFFIX)
  }

  ghost predicate RoomsOk(rooms: Rooms, free: set<nat>, next: nat)
  {
    && 0 < next && (forall r :: r in free ==> 0 < r < next && r !in rooms)
    && (forall r :: r in rooms ==> 0 < r < next && RoomOk(rooms[r]))
    && |rooms| <= L.MAX_ROOMS
  }

  ghost predicate Occupied(rooms: Rooms)
  {
    forall r :: r in rooms ==> rooms[r].leases != []
  }

  /** collectRoomListState */
  function Collected(rooms: Rooms): (m: L.Rooms)
    ensures m.Keys == rooms.Keys
  {
    map r | r in rooms :: rooms[r].info.(players := |rooms[r].leases| % 256)
  }

  lemma CollectedListable(rooms: Rooms, free: set<nat>, next: nat)
    requires RoomsOk(rooms, free, next)
    ensures L.Listable(Collected(rooms))
  {
    var m := Collected(rooms);
    assert |m.Keys| == |m| && |rooms.Keys| == |rooms|;
  }

  lemma CollectedLists(rooms: Rooms, free: set<nat>, next: nat)
    requires RoomsOk(rooms, free, next)
    ensures Lists(Collected(rooms), rooms)
  {
    hide L.Listable, RoomOk;
    forall r | r in rooms
      ensures |rooms[r].leases| <= MAX_PLAYERS
    {
      RoomSize(rooms[r]);
    }
  }

  lemma MarkedRooms(rooms: Rooms, rooms': Rooms, free: set<nat>, next: nat)
    requires Marked(rooms, rooms')
    ensures Collected(rooms') == Collected(rooms)
    ensures Occupied(rooms) ==> Occupied(rooms')
    ensures RoomsOk(rooms, free, next) ==> RoomsOk(rooms', free, next)
  {
    assert |rooms'.Keys| == |rooms'| && |rooms.Keys| == |rooms|;
    forall r | r in rooms
      ensures r in rooms' && rooms'[r].leases == [] <==> rooms[r].leases == []
      ensures RoomOk(rooms[r]) ==> RoomOk(rooms'[r])
    {
      assert r in rooms'.Keys;
      forall i | 0 <= i < |rooms[r].leases|
        ensures rooms'[r].leases[i].virtualIP == rooms[r].leases[i].virtualIP
      {
        assert InSlot(rooms, r, i);
      }
    }
    assert forall r :: r in rooms' ==> r in rooms.Keys;
  }

  lemma MarkedTwice(a: Rooms, b: Rooms, c: Rooms)
    requires Marked(a, b) && Marked(b, c)
    ensures Marked(a, c)
  {
    forall r, i | InSlot(a, r, i)
      ensures r in c && i < |c[r].leases| && SameLease(a[r].leases[i], c[r].leases[i])
    {
      assert r in b.Keys && r in c.Keys;
      assert InSlot(b, r, i);
    }
  }

  lemma MarkedSelf(a: Rooms)
    ensures Marked(a, a)
  {
  }

  /** Changing times, online mark or host of one room marks the rooms. */
  lemma MarkedOne(rooms: Rooms, r: nat, i: nat, l: Lease, host: nat)
    requires InSlot(rooms, r, i) && SameLease(rooms[r].leases[i], l)
    ensures Marked(rooms, rooms[r := rooms[r].(leases := rooms[r].leases[i := l], hostPeerId := host)])
  {
  }

  lemma MarkedHost(rooms: Rooms, r: nat, host: nat)
    requires r in rooms
    ensures Marked(rooms, rooms[r := rooms[r].(hostPeerId := host)])
  {
  }

  lemma TakenRooms(rooms: Rooms, rooms': Rooms, r: nat, i: nat, free: set<nat>, next: nat)
    requires Taken(rooms, rooms', r, i) && RoomsOk(rooms, free, next)
    ensures RoomsOk(rooms', free, next)
  {
    assert |rooms'.Keys| == |rooms'| && |rooms.Keys| == |rooms|;
    forall q | q in rooms'
      ensures q in rooms && RoomOk(rooms'[q])
    {
      assert q in rooms'.Keys;
    }
  }

  predicate Occupies(leases: seq<Lease>, suffix: nat)
  {
    HasIP(leases, SUBNET + suffix)
  }

  /** The lowest address that no lease has, if the room is not full. */
  function AllocateIP(leases: seq<Lease>, suffix: nat): (ip: nat)
    requires suffix <= LAST_SUFFIX + 1
    ensures ip != 0 ==> SUBNET + suffix <= ip <= SUBNET + LAST_SUFFIX && !HasIP(leases, ip)
    ensures ip == 0 ==> forall x :: suffix <= x <= LAST_SUFFIX ==> Occupies(leases, x)
    ensures forall x :: suffix <= x && SUBNET + x < ip ==> Occupies(leases, x)
    decreases LAST_SUFFIX + 1 - suffix
  {
    if suffix > LAST_SUFFIX then 0
    else if !Occupies(leases, suffix) then SUBNET + suffix
    else AllocateIP(leases, suffix + 1)
  }

  function Ips(leases: seq<Lease>): (s: set<nat>)
  {
    if leases == [] then {} else {leases[0].virtualIP} + Ips(leases[1..])
  }

  lemma {:induction false} IpsCount(leases: seq<Lease>)
    ensures |Ips(leases)| <= |leases|
    ensures forall i :: 0 <= i < |leases| ==> leases[i].virtualIP in Ips(leases)
  {
    if leases != [] {
      IpsCount(leases[1..]);
    }
  }

  ghost function Addresses(n: nat): (s: set<nat>)
    ensures |s| == n && forall ip :: ip in s ==> SUBNET + FIRST_SUFFIX <= ip < SUBNET + FIRST_SUFFIX + n
  {
    if n == 0 then {} else Addresses(n - 1) + {SUBNET + FIRST_SUFFIX + n - 1}
  }

  /** A room of at most eight leases never runs out of addresses. */
  lemma AddressLeft(leases: seq<Lease>)
    requires |leases| <= MAX_PLAYERS
    ensures AllocateIP(leases, FIRST_SUFFIX) != 0
  {
    var all := Addresses(MAX_PLAYERS + 1);
    IpsCount(leases);
    if AllocateIP(leases, FIRST_SUFFIX) == 0 {
      forall ip | ip in all
        ensures ip in Ips(leases)
      {
        assert Occupies(leases, ip - SUBNET);
      }
      SubsetSize(all, Ips(leases));
    }
  }

  /** A broadcast, whatever rooms the handlers have made, is a step of the runs of RoomReplication: what
   * is proved of those runs is proved of the clients of this server. */
  lemma BroadcastIsChange(w: RR.World, rooms: Rooms, free: set<nat>, next: nat, lost: bool)
    requires RR.Inv(w) && RoomsOk(rooms, free, next)
    ensures var m := Collected(rooms); var w' := RR.Changed(w, m, lost);
      && RR.Next(w, w', RR.Change(m, lost)) && RR.Inv(w')
      && w'.rooms == m == w'.published.rooms && w'.published == R.Publish(w.published, m).0
  {
    hide RoomsOk, RR.Inv, L.Listable, R.Publish, Collected;
    CollectedListable(rooms, free, next);
    RR.ChangeKeeps(w, Collected(rooms), lost);
  }

  // ---------------------------------------------------------------- membership as functions

  /** addLease: the next free address, at the end of the leases. */
  ghost function Joined(rooms: Rooms, r: nat, s: Session, token: Token): Rooms
    requires r in rooms
  {
    rooms[r := EnsureHost(rooms[r].(leases := rooms[r].leases + [NewLease(rooms[r].leases, s, token)]))]
  }

  ghost function NewLease(leases: seq<Lease>, s: Session, token: Token): Lease
  {
    Lease(s.peerId, AllocateIP(leases, FIRST_SUFFIX), s.name, token, true, 0)
  }

  ghost function WithRoom(rooms: Rooms, r: nat, info: L.RoomInfo, host: nat): Rooms
  {
    rooms[r := Room(info, host, [])]
  }

  lemma CreatedIs(rooms: Rooms, r: nat, info: L.RoomInfo, host: nat)
    ensures WithRoom(rooms, r, info, host) == rooms[r := Room(info, host, [])]
  {
  }

  lemma WithRoomMeans(rooms: Rooms, r: nat, info: L.RoomInfo, host: nat)
    requires r !in rooms
    ensures var n := WithRoom(rooms, r, info, host);
      r in n && n[r] == Room(info, host, []) && n - {r} == rooms
  {
  }

  /** The session that has joined. */
  ghost function Member(s: Session, r: nat, l: Lease): Session
  {
    s.(virtualIP := l.virtualIP, roomId := r, resumeRoomId := r, resumePeerId := s.peerId, resumeToken := l.token, state := InRoom)
  }

  /** The session that has left its room or not managed to join it. */
  function OutOfRoom(s: Session): Session
  {
    s.(roomId := 0, virtualIP := 0, resumeRoomId := 0, resumePeerId := 0, resumeToken := 0, state := LoggedIn)
  }

  /** markLeaseOffline */
  ghost function Offline(rooms: Rooms, r: nat, p: nat, now: int): (n: Rooms)
  {
    if r !in rooms then rooms
    else
      var leases := rooms[r].leases;
      var i := Find(leases, p);
      if i == |leases| then rooms
      else WithLeases(rooms, r, leases[i := leases[i].(online := false, expiresAt := now + LEASE_TIMEOUT)])
  }

  /** markLeaseOnline */
  ghost function Online(rooms: Rooms, r: nat, i: nat): (n: Rooms)
    requires InSlot(rooms, r, i)
  {
    rooms[r := EnsureHost(rooms[r].(leases := rooms[r].leases[i := rooms[r].leases[i].(online := true, expiresAt := 0)]))]
  }

  /** What a disconnect leaves of a session's lease: unless the session has logged out, the lease
   * stays and its time starts. */
  ghost function Left(rooms: Rooms, s: Session, reason: Reason, now: int): (n: Rooms)
  {
    if reason == LogoutComplete then rooms
    else if s.roomId != 0 then Offline(rooms, s.roomId, s.peerId, now)
    else if s.state == ResumePending then Offline(rooms, s.resumeRoomId, s.peerId, now)
    else rooms
  }

  /** The session that has come back to its lease. */
  function Returned(s: Session, r: nat, l: Lease): Session
  {
    s.(roomId := r, virtualIP := l.virtualIP, name := l.name, resumeRoomId := r, resumePeerId := s.peerId, resumeToken := l.token,
      state := InRoom)
  }

  lemma ReturnedAt(s: Session, r: nat, l: Lease)
    ensures Returned(s, r, l) == Returned(s, r, l.(online := true, expiresAt := 0))
    ensures var t := Returned(s, r, l); t.alive == s.alive && t.peerId == s.peerId && t.(alive := t.alive) == t
  {
  }

  /** The resumption that a pending session is waiting for. */
  predicate Awaited(s: Session, resume: Resume)
  {
    && s.state == ResumePending && s.peerId == resume.peerId && s.resumeRoomId == resume.roomId
    && s.resumePeerId == resume.peerId && s.resumeToken == resume.token
  }

  /** What a disconnect means for the session's lease. */
  lemma LeftMeans(c: Core, f: int, reason: Reason, now: int)
    requires Inv(c) && f in c.clients && (reason == LogoutComplete ==> c.clients[f].state == Closing)
    ensures var s := c.clients[f]; var rooms' := Left(c.rooms, s, reason, now);
      && (s.state == InRoom ==> OfflineUntil(c.rooms, rooms', s.roomId, s.peerId, now + 120))
      && (s.state == ResumePending ==> OfflineUntil(c.rooms, rooms', s.resumeRoomId, s.peerId, now + 120))
      && (s.state != InRoom && s.state != ResumePending ==> rooms' == c.rooms)
  {
    hide OfflineUntil, Offline, HasLease;
    var s := c.clients[f];
    SessionFacts(c, f);
    OfflineMeans(c.rooms, s.roomId, s.peerId, now);
    OfflineMeans(c.rooms, s.resumeRoomId, s.peerId, now);
  }

  lemma {:induction false} FindSame(a: seq<Lease>, b: seq<Lease>, p: nat)
    requires |a| == |b| && forall i :: 0 <= i < |a| ==> a[i].peerId == b[i].peerId
    ensures Find(a, p) == Find(b, p)
  {
    if a != [] {
      FindSame(a[1..], b[1..], p);
    }
  }

  lemma OfflineNone(rooms: Rooms, r: nat, p: nat, now: int)
    requires r !in rooms
    ensures Offline(rooms, r, p, now) == rooms
  {
  }

  lemma OfflineTwice(rooms: Rooms, r: nat, p: nat, now: int)
    ensures Offline(Offline(rooms, r, p, now), r, p, now) == Offline(rooms, r, p, now)
  {
    if r in rooms {
      var leases := rooms[r].leases;
      var i := Find(leases, p);
      if i < |leases| {
        var once := leases[i := leases[i].(online := false, expiresAt := now + LEASE_TIMEOUT)];
        FindSame(leases, once, p);
        assert once[i := once[i].(online := false, expiresAt := now + LEASE_TIMEOUT)] == once;
      }
    }
  }

  /** A lease that is left behind can be resumed for 120 seconds. */
  lemma OfflineMeans(rooms: Rooms, r: nat, p: nat, now: int)
    requires Distinct(rooms)
    ensures OfflineUntil(rooms, Offline(rooms, r, p, now), r, p, now + 120)
  {
    var n := Offline(rooms, r, p, now);
    assert n.Keys == rooms.Keys;
    if r in rooms {
      var i := Find(rooms[r].leases, p);
      forall q, j | InSlot(rooms, q, j)
        ensures n[q].leases[j] ==
          if q == r && rooms[q].leases[j].peerId == p then rooms[q].leases[j].(online := false, expiresAt := now + 120)
          else rooms[q].leases[j]
      {
        if q == r && rooms[q].leases[j].peerId == p {
          assert InSlot(rooms, r, i) && i == j;
        }
      }
    }
  }

  /** Joining adds the one lease that the session gets. */
  lemma JoinedMore(rooms: Rooms, r: nat, s: Session, token: Token)
    requires r in rooms && |rooms[r].leases| <= MAX_PLAYERS
    ensures OneMore(rooms, Joined(rooms, r, s, token), r, s, Member(s, r, NewLease(rooms[r].leases, s, token)), token)
  {
    hide AllocateIP;
    AddressLeft(rooms[r].leases);
    var ip := AllocateIP(rooms[r].leases, FIRST_SUFFIX);
    forall x | 0x0A0A0002 <= x < ip
      ensures HasIP(rooms[r].leases, x)
    {
      assert Occupies(rooms[r].leases, x - SUBNET);
    }
  }

  /** Leaving takes away exactly the lease of the peer. */
  lemma VacatedLess(rooms: Rooms, r: nat, p: nat)
    requires HasLease(rooms, r, p)
    ensures r in rooms && OneLess(rooms, Vacated(rooms, r, p), r, p)
  {
    hide EnsureHost;
    var k :| InSlot(rooms, r, k) && rooms[r].leases[k].peerId == p;
    var i := Find(rooms[r].leases, p);
    assert InSlot(rooms, r, i) && rooms[r].leases[i].peerId == p;
    HostOnly(rooms[r].(leases := Without(rooms[r].leases, i)));
    assert Dropped(rooms, Vacated(rooms, r, p), r, i);
  }

  lemma HostOnly(room: Room)
    ensures EnsureHost(room).leases == room.leases && EnsureHost(room).info == room.info
  {
  }

  /** The check of a resumption finds exactly the leases that the token opens. */
  lemma ValidMeans(rooms: Rooms, w: Resume, now: int)
    requires Distinct(rooms)
    ensures LeaseValid(rooms, w, now) <==> Resumable(rooms, w, now)
  {
    if Resumable(rooms, w, now) {
      var k :| InSlot(rooms, w.roomId, k) && Fits(rooms[w.roomId].leases[k], w.peerId, w.token, now);
      var i := Find(rooms[w.roomId].leases, w.peerId);
      assert InSlot(rooms, w.roomId, i);
    }
    if LeaseValid(rooms, w, now) {
      var i := Find(rooms[w.roomId].leases, w.peerId);
      assert InSlot(rooms, w.roomId, i) && Fits(rooms[w.roomId].leases[i], w.peerId, w.token, now);
    }
  }

  // ---------------------------------------------------------------- lease expiry as a function

  /** The peer has an alive session in the room. */
  ghost predicate Live(clients: Clients, r: nat, p: nat)
  {
    exists f :: f in clients && clients[f].peerId == p && clients[f].alive && clients[f].state == InRoom && clients[f].roomId == r
  }

  /** A lease after a look at its owner. */
  function Refreshed(l: Lease, live: bool, now: int): Lease
  {
    if live && !l.online then l.(online := true, expiresAt := 0)
    else if l.online && !live then l.(online := false, expiresAt := now + LEASE_TIMEOUT)
    else if !l.online && l.expiresAt == 0 then l.(expiresAt := now + LEASE_TIMEOUT)
    else l
  }

  predicate Expired(l: Lease, now: int)
  {
    !l.online && l.expiresAt > 0 && now > l.expiresAt
  }

  /** A lease goes exactly when it was offline, past its time, and still has no live session. */
  lemma ExpiresIff(l: Lease, live: bool, now: int)
    ensures Expired(Refreshed(l, live, now), now) <==> !live && Expired(l, now)
  {
  }

  /** The leases that stay, refreshed, in their order; and the sessions, some of which are lost while
   * the room is told of the leases that go. */
  ghost function Survivors(clients: Clients, r: nat, leases: seq<Lease>, now: int, told: nat -> set<int>): (s: (seq<Lease>, Clients))
    ensures s.1.Keys == clients.Keys
  {
    if leases == [] then ([], clients)
    else
      var l := Refreshed(leases[0], Live(clients, r, leases[0].peerId), now);
      if Expired(l, now) then Survivors(Lose(clients, told(l.peerId)), r, leases[1..], now, told)
      else
        var rest := Survivors(clients, r, leases[1..], now, told);
        ([l] + rest.0, rest.1)
  }

  /** One room of the sweep. */
  ghost function Swept(clients: Clients, r: nat, room: Room, now: int, told: nat -> set<int>): (s: (Room, Clients))
    ensures s.1.Keys == clients.Keys
  {
    var left := Survivors(clients, r, room.leases, now, told);
    (EnsureHost(room.(leases := left.0)), left.1)
  }

  /** The sweep over the given rooms in ascending order: a session lost in one room is no live session
   * for the leases looked at later. */
  ghost function Sweep(clients: Clients, rooms: Rooms, left: set<nat>, now: int, told: nat -> set<int>): (s: (Clients, Rooms))
    requires left <= rooms.Keys
    ensures s.0.Keys == clients.Keys && s.1.Keys == rooms.Keys
    decreases |left|
  {
    if left == {} then (clients, rooms)
    else
      var r := L.MinKey(left);
      var one := Swept(clients, r, rooms[r], now, told);
      Sweep(one.1, rooms[r := one.0], left - {r}, now, told)
  }

  /** The rooms after cleanupExpiredLeases: those with a surviving lease. */
  ghost function Cleaned(clients: Clients, rooms: Rooms, now: int, net: Net): (n: Rooms)
  {
    NonEmpty(Sweep(clients, rooms, rooms.Keys, now, net.told).1)
  }

  /** The sessions after cleanupExpiredLeases; the room list is sent only if it has changed. */
  ghost function CleanedClients(clients: Clients, rooms: Rooms, now: int, net: Net): (n: Clients)
    ensures n.Keys == clients.Keys
  {
    var swept := Sweep(clients, rooms, rooms.Keys, now, net.told).0;
    if Collected(Cleaned(clients, rooms, now, net)) == Collected(rooms) then swept else Lose(swept, net.pushed)
  }

  function WithLeases(rooms: Rooms, r: nat, leases: seq<Lease>): (n: Rooms)
    requires r in rooms
    ensures n.Keys == rooms.Keys && n[r].leases == leases
  {
    rooms[r := rooms[r].(leases := leases)]
  }

  ghost function NonEmpty(rooms: Rooms): (n: Rooms)
  {
    map r | r in rooms && rooms[r].leases != [] :: rooms[r]
  }

  lemma NoneLeft(clients: Clients, r: nat, leases: seq<Lease>, now: int, told: nat -> set<int>)
    ensures leases[..|leases|] + Survivors(clients, r, leases[|leases|..], now, told).0 == leases
    ensures Survivors(clients, r, leases[|leases|..], now, told).1 == clients
  {
  }

  /** What is left of the sweep of a room at lease i. */
  ghost function FromLease(clients: Clients, r: nat, leases: seq<Lease>, i: nat, now: int, told: nat -> set<int>): (s: (seq<Lease>, Clients))
    requires i <= |leases|
  {
    var rest := Survivors(clients, r, leases[i..], now, told);
    (leases[..i] + rest.0, rest.1)
  }

  lemma SurvivorsKept(clients: Clients, r: nat, leases: seq<Lease>, i: nat, now: int, told: nat -> set<int>)
    requires i < |leases|
    ensures var l := Refreshed(leases[i], Live(clients, r, leases[i].peerId), now);
      && (!Expired(l, now) ==> FromLease(clients, r, leases, i, now, told) == FromLease(clients, r, leases[i := l], i + 1, now, told))
      && (Expired(l, now) ==> (
            FromLease(clients, r, leases, i, now, told)
            == FromLease(Lose(clients, told(leases[i].peerId)), r, Without(leases, i), i, now, told)))
  {
    hide Expired, Live, Lose;
    var l := Refreshed(leases[i], Live(clients, r, leases[i].peerId), now);
    assert leases[i..][0] == leases[i] && leases[i..][1..] == leases[i + 1..];
    if Expired(l, now) {
      assert Without(leases, i)[..i] == leases[..i] && Without(leases, i)[i..] == leases[i + 1..];
    } else {
      var rest := Survivors(clients, r, leases[i + 1..], now, told).0;
      assert leases[i := l][..i + 1] == leases[..i] + [l] && leases[i := l][i + 1..] == leases[i + 1..];
      assert leases[..i] + ([l] + rest) == (leases[..i] + [l]) + rest;
    }
  }

  lemma OnlyRoom(left: set<nat>, r: nat)
    requires r in left && forall q :: q in left ==> r <= q
    ensures L.MinKey(left) == r
  {
  }

  // ---------------------------------------------------------------- the server

  class SignalServer {
    const maxRooms: nat
    const publisher: R.RoomPublisher
    var clients: Clients
    var peerMap: map<nat, int>
    var freePeerIds: set<nat>
    var nextPeerId: nat
    var rooms: Rooms
    var freeRoomIds: set<nat>
    var nextRoomId: nat

    ghost function State(): Core
      reads this
    {
      Core(clients, peerMap, freePeerIds, nextPeerId, rooms)
    }

    /** Holds inside handlers too, when rooms may be empty and changes unpublished. */
    ghost predicate Stable()
      reads this, publisher
    {
      && maxRooms <= L.MAX_ROOMS
      && Inv(State()) && RoomsOk(rooms, freeRoomIds, nextRoomId) && L.Listable(publisher.published)
    }

    /** Holds at handler boundaries: identities are safe, no room is empty, and the published room
     * list is the current one. */
    ghost predicate Valid()
      reads this, publisher
    {
      Stable() && Occupied(rooms) && publisher.published == Collected(rooms)
    }

    constructor (maxRooms: nat)
      requires maxRooms <= L.MAX_ROOMS
      ensures Valid() && clients == map[] && rooms == map[] && fresh(publisher)
    {
      this.maxRooms := maxRooms;
      publisher := new R.RoomPublisher();
      clients, peerMap, freePeerIds, nextPeerId := map[], map[], {}, 1;
      rooms, freeRoomIds, nextRoomId := map[], {}, 1;
      new;
      assert Collected(rooms) == map[];
      assert Inv(State());
      assert RoomsOk(rooms, freeRoomIds, nextRoomId);
    }

    // -------------------------------------------------------------- peer ids and the index

    method AllocatePeerId() returns (p: nat)
      requires Inv(State())
      modifies this`freePeerIds, this`nextPeerId
      ensures Inv(State()) && 0 < p < nextPeerId && p !in freePeerIds && NoSession(clients, p) && NoLease(rooms, p)
      ensures freePeerIds == old(freePeerIds) - {p}
      ensures if old(freePeerIds) == {} then p == old(nextPeerId) else p in old(freePeerIds) && forall q :: q in old(freePeerIds) ==> p <= q
    {
      hide ClientsOk, Distinct, LeasesOk, Matched, Seated;
      if freePeerIds != {} {
        p :| p in freePeerIds;
        var smaller := set q | q in freePeerIds && q < p;
        while smaller != {}
          invariant State() == old(State()) && p in freePeerIds && smaller == set q | q in freePeerIds && q < p
          decreases |smaller|
        {
          var q :| q in smaller;
          var fewer := set x | x in freePeerIds && x < q;
          assert fewer <= smaller - {q};
          SubsetSize(fewer, smaller - {q});
          p, smaller := q, fewer;
        }
        assert forall q :: q in freePeerIds && q < p ==> q in smaller;
        AllocateKeeps(State(), p);
        freePeerIds := freePeerIds - {p};
      } else {
        p := nextPeerId;
        AllocateKeeps(State(), p);
        nextPeerId := nextPeerId + 1;
      }
    }

    /** findClientOwnerByPeerId; a stale index entry is dropped. */
    method FindOwner(p: nat) returns (owner: Option<int>)
      requires Inv(State())
      modifies this`peerMap
      ensures Inv(State())
      ensures owner.Some? ==> p != 0 && owner.value in clients && clients[owner.value].peerId == p
      ensures owner.None? && p != 0 ==> NoSession(clients, p) && p !in peerMap
      ensures owner.Some? ==> peerMap == old(peerMap)
      ensures forall q :: q != p && q in old(peerMap) ==> q in peerMap && peerMap[q] == old(peerMap[q])
    {
      hide Distinct, LeasesOk, Matched, Seated, SessionOk;
      if p == 0 {
        return None;
      }
      if p !in peerMap {
        return None;
      }
      var f := peerMap[p];
      if f !in clients || clients[f].peerId != p {
        UnindexKeeps(State(), p);
        peerMap := peerMap - {p};
        return None;
      }
      return Some(f);
    }

    /** findClientByPeerId */
    method FindClient(p: nat) returns (client: Option<int>)
      requires Inv(State())
      modifies this`peerMap
      ensures Inv(State())
      ensures client.Some? ==> client.value in clients && clients[client.value].peerId == p && clients[client.value].alive
      ensures client.None? ==> forall f :: f in clients && clients[f].peerId == p && p != 0 ==> !clients[f].alive
    {
      hide Distinct, LeasesOk, Matched, Seated;
      var owner := FindOwner(p);
      if owner.None? {
        return None;
      }
      var s := clients[owner.value];
      ghost var c := State();
      forall f | f in clients && clients[f].peerId == p
        ensures f == owner.value
      {
        OneOwner(c, f, owner.value);
      }
      if !s.alive || !s.serverAuthOk || !s.secureEnabled || !HasIdentity(s.state) {
        return None;
      }
      return owner;
    }

    method ReleasePeerId(p: nat)
      requires Inv(State()) && p < nextPeerId && (p != 0 && NoSession(clients, p) ==> NoLease(rooms, p))
      modifies this`peerMap, this`freePeerIds
      ensures Inv(State()) && (if p != 0 && NoSession(clients, p) then freePeerIds == old(freePeerIds) + {p} else freePeerIds == old(freePeerIds))
    {
      hide Inv;
      if p == 0 {
        return;
      }
      var owner := FindOwner(p);
      if owner.Some? {
        Owned(clients, owner.value, p);
        return;
      }
      FreeKeeps(State(), p);
      freePeerIds := freePeerIds + {p};
    }

    method BindPeerIndex(f: int, p: nat) returns (ok: bool)
      requires Inv(State())
      modifies this`peerMap
      ensures Inv(State())
      ensures p != 0 && NoSession(clients, p) ==> ok
      ensures p != 0 && f in clients && clients[f].peerId == p ==> ok
      ensures ok ==> p in peerMap && peerMap[p] == f
    {
      hide Distinct, LeasesOk, Matched, Seated, SessionOk;
      if p == 0 {
        return false;
      }
      assert f in clients ==> Indexed(clients[f], f, peerMap, freePeerIds, nextPeerId);
      if p in peerMap && peerMap[p] != f {
        var owner := FindOwner(p);
        if owner.Some? {
          Owned(clients, owner.value, p);
          return false;
        }
        IndexKeeps(State(), p, f);
      }
      if p in peerMap && peerMap[p] != f {
        return false;
      }
      peerMap := peerMap[p := f];
      return true;
    }

    /** Some connections are lost. */
    method GiveUp(dead: set<int>)
      requires Inv(State())
      modifies this`clients
      ensures Inv(State()) && clients == Lose(old(clients), dead)
    {
      hide Inv;
      LoseKeeps(State(), dead);
      clients := map f | f in clients :: if f in dead then clients[f].(alive := false) else clients[f];
    }

    /** broadcastRoomListPush: sent says whether there was anything to send. */
    method BroadcastRoomListPush() returns (sent: bool)
      requires Stable()
      modifies publisher
      ensures Stable() && publisher.published == Collected(rooms)
      ensures R.Published(publisher.published, publisher.revision)
        == R.Publish(R.Published(old(publisher.published), old(publisher.revision)), Collected(rooms)).0
      ensures sent <==> old(publisher.published) != Collected(rooms)
      ensures Lists(publisher.published, rooms)
      ensures publisher.revision == old(publisher.revision) + if publisher.published != old(publisher.published) then 1 else 0
    {
      hide Inv, RoomsOk, L.Listable, Collected, L.Changes, L.DeltaSize, Lists;
      var current := Collected(rooms);
      CollectedLists(rooms, freeRoomIds, nextRoomId);
      CollectedListable(rooms, freeRoomIds, nextRoomId);
      L.DeltaFits(publisher.published, current);
      L.NoChanges(publisher.published, current);
      R.PublishMeets(R.Published(publisher.published, publisher.revision), current);
      var msg := publisher.Broadcast(current);
      sent := msg.Some?;
    }

    // -------------------------------------------------------------- leases

    method MarkLeaseOffline(r: nat, p: nat, now: int) returns (found: bool)
      requires Inv(State())
      modifies this`rooms
      ensures Inv(State()) && Marked(old(rooms), rooms) && found == HasLease(old(rooms), r, p)
      ensures rooms == Offline(old(rooms), r, p, now)
    {
      hide Inv;
      MarkedSelf(rooms);
      if r !in rooms {
        return false;
      }
      var i := Find(rooms[r].leases, p);
      if i == |rooms[r].leases| {
        return false;
      }
      var l := rooms[r].leases[i].(online := false, expiresAt := now + LEASE_TIMEOUT);
      assert InSlot(rooms, r, i);
      MarkedOne(rooms, r, i, l, rooms[r].hostPeerId);
      MarkedKeeps(State(), rooms[r := rooms[r].(leases := rooms[r].leases[i := l])]);
      rooms := rooms[r := rooms[r].(leases := rooms[r].leases[i := l])];
      return true;
    }

    /** removeLease and, for a room left empty, eraseRoom. The identity invariant is the caller's
     * business: a session may still sit on the lease. */
    method RemoveLease(r: nat, p: nat)
      requires RoomsOk(rooms, freeRoomIds, nextRoomId) && Occupied(rooms)
      modifies this`rooms, this`freeRoomIds
      ensures rooms == Vacated(old(rooms), r, p)
      ensures RoomsOk(rooms, freeRoomIds, nextRoomId) && Occupied(rooms)
    {
      hide RoomsOk, EnsureHost, Without;
      if r !in rooms {
        return;
      }
      DropLease(r, p);
      EraseIfEmpty(r);
    }

    method DropLease(r: nat, p: nat)
      requires RoomsOk(rooms, freeRoomIds, nextRoomId) && r in rooms
      modifies this`rooms
      ensures rooms == WithoutLease(old(rooms), r, p) && RoomsOk(rooms, freeRoomIds, nextRoomId)
    {
      hide RoomsOk, EnsureHost, Without;
      var i := Find(rooms[r].leases, p);
      if i < |rooms[r].leases| {
        WithoutTakes(rooms, r, p);
        TakenRooms(rooms, WithoutLease(rooms, r, p), r, i, freeRoomIds, nextRoomId);
        rooms := rooms[r := EnsureHost(rooms[r].(leases := Without(rooms[r].leases, i)))];
      }
    }

    method EraseIfEmpty(r: nat)
      requires RoomsOk(rooms, freeRoomIds, nextRoomId) && r in rooms
      modifies this`rooms, this`freeRoomIds
      ensures rooms == (if old(rooms)[r].leases == [] then old(rooms) - {r} else old(rooms)) && RoomsOk(rooms, freeRoomIds, nextRoomId)
    {
      hide RoomsOk;
      if rooms[r].leases == [] {
        ErasedRooms(rooms, r, freeRoomIds, nextRoomId);
        rooms := rooms - {r};
        freeRoomIds := freeRoomIds + {r};
      }
    }

    // -------------------------------------------------------------- disconnect

    /** destroyClient. The session leaves the table before its id is released; the source does
     * both after the index no longer leads to the session, so the order does not show. */
    method DestroyClient(f: int, reason: Reason, now: int)
      requires Inv(State()) && f in clients && (reason == LogoutComplete ==> clients[f].state == Closing)
      modifies this`clients, this`peerMap, this`freePeerIds, this`rooms
      ensures Inv(State()) && clients == old(clients) - {f} && Marked(old(rooms), rooms)
      ensures reason == Takeover ==> freePeerIds == old(freePeerIds)
      ensures rooms == Left(old(rooms), old(clients)[f], reason, now)
    {
      hide Inv, Marked, HasLease, NoLease, Offline;
      ghost var c := State();
      MarkedSelf(rooms);
      SessionFacts(c, f);
      var s := clients[f];
      var peerId := s.peerId;
      var preservePeerId := reason == Takeover;
      var owner := FindOwner(peerId);
      var ownedByOther := owner.Some? && owner.value != f;
      OnlyOwner(c, f);
      if owner.Some? {
        NotOther(clients, f, peerId, owner.value);
      }
      if ownedByOther {
        preservePeerId := true;
      }
      if !ownedByOther && reason != LogoutComplete && s.roomId != 0 {
        var _ := MarkLeaseOffline(s.roomId, peerId, now);
        preservePeerId := true;
      } else if !ownedByOther && reason != LogoutComplete && s.state == ResumePending && s.resumeRoomId != 0 {
        if s.resumeRoomId in rooms {
          var _ := MarkLeaseOffline(s.resumeRoomId, peerId, now);
          preservePeerId := true;
        } else {
          PendingGone(State(), f);
          OfflineNone(rooms, s.resumeRoomId, peerId, now);
        }
      } else if peerId != 0 && !ownedByOther {
        NoLeaseOf(State(), f);
      }
      DropKeeps(State(), f);
      clients := clients - {f};
      if peerId != 0 && peerId in peerMap && peerMap[peerId] == f {
        UnindexKeeps(State(), peerId);
        peerMap := peerMap - {peerId};
      }
      if !preservePeerId {
        ReleasePeerId(peerId);
      }
    }

    // -------------------------------------------------------------- lease expiry

    /** One lease of cleanupExpiredLeases, up to the check for expiry. */
    method RefreshLease(r: nat, i: nat, now: int) returns (changed: bool, hasLive: bool)
      requires Inv(State()) && InSlot(rooms, r, i)
      modifies this`rooms, this`peerMap
      ensures Inv(State()) && Marked(old(rooms), rooms) && InSlot(rooms, r, i)
      ensures hasLive == Live(clients, r, old(rooms)[r].leases[i].peerId)
      ensures !changed ==> rooms == old(rooms)
      ensures rooms == WithLeases(old(rooms), r, old(rooms)[r].leases[i := Refreshed(old(rooms)[r].leases[i], hasLive, now)])
      ensures !hasLive ==> forall f :: f in clients && clients[f].alive && clients[f].state == InRoom ==>
        clients[f].peerId != rooms[r].leases[i].peerId
    {
      hide HasLease, Distinct, Seated, ClientsOk, LeasesOk;
      changed := false;
      var lease := rooms[r].leases[i];
      assert LeaseOk(lease, freePeerIds, nextPeerId) by {
        LeaseFacts(State(), r, i);
      }
      var live := FindClient(lease.peerId);
      hasLive := live.Some? && clients[live.value].roomId == r && clients[live.value].state == InRoom;
      if hasLive {
        IsLive(clients, r, live.value);
      } else {
        LiveElsewhere(State(), r, i, live);
      }
      MarkedSelf(rooms);
      SameLeases(rooms, r, i);
      if hasLive && !lease.online {
        lease, changed := lease.(online := true, expiresAt := 0), true;
      } else if lease.online && !hasLive {
        lease, changed := lease.(online := false, expiresAt := now + LEASE_TIMEOUT), true;
      } else if !lease.online && lease.expiresAt == 0 {
        lease, changed := lease.(expiresAt := now + LEASE_TIMEOUT), true;
      }
      if changed {
        MarkedOne(rooms, r, i, lease, rooms[r].hostPeerId);
        MarkedKeeps(State(), rooms[r := rooms[r].(leases := rooms[r].leases[i := lease])]);
        rooms := rooms[r := rooms[r].(leases := rooms[r].leases[i := lease])];
      }
    }

    /** One turn of the loop over the leases of one room. */
    method CleanLease(r: nat, i: nat, now: int, net: Net) returns (changed: bool, removed: bool)
      requires Stable() && InSlot(rooms, r, i)
      modifies this`clients, this`rooms, this`peerMap, this`freePeerIds
      ensures Stable() && rooms.Keys == old(rooms).Keys && (!changed ==> Marked(old(rooms), rooms))
      ensures var leases := old(rooms)[r].leases;
        var l := Refreshed(leases[i], Live(old(clients), r, leases[i].peerId), now);
        && removed == Expired(l, now)
        && rooms == WithLeases(old(rooms), r, if removed then Without(leases, i) else leases[i := l])
        && clients == if removed then Lose(old(clients), net.told(leases[i].peerId)) else old(clients)
    {
      hide Inv, RoomsOk, Marked, L.Listable, NoLease, HasLease, Live, Refreshed, WithLeases, Lose;
      ghost var before := rooms;
      var hasLive;
      changed, hasLive := RefreshLease(r, i, now);
      MarkedShape(before, rooms);
      MarkedRooms(before, rooms, freeRoomIds, nextRoomId);
      RefreshedPeer(before[r].leases[i], hasLive, now);
      removed := false;
      var lease := rooms[r].leases[i];
      if !lease.online && lease.expiresAt > 0 && now > lease.expiresAt {
        ExpiresIff(before[r].leases[i], hasLive, now);
        WithoutRefreshed(before, r, i, lease);
        ghost var told := clients;
        GiveUp(net.told(lease.peerId));
        StillNobody(told, net.told(lease.peerId), lease.peerId);
        DropExpired(r, i);
        changed, removed := true, true;
      }
    }

    /** An expired lease goes, and with it the id that no session uses any more. */
    method DropExpired(r: nat, i: nat)
      requires Stable() && InSlot(rooms, r, i)
      requires forall f :: f in clients && clients[f].alive && clients[f].state == InRoom ==> clients[f].peerId != rooms[r].leases[i].peerId
      modifies this`rooms, this`peerMap, this`freePeerIds
      ensures Stable() && rooms == WithLeases(old(rooms), r, Without(old(rooms)[r].leases, i))
    {
      hide Inv, RoomsOk, L.Listable, NoLease, HasLease, Without;
      var lease := rooms[r].leases[i];
      LeaseFacts(State(), r, i);
      ghost var kept := rooms[r := rooms[r].(leases := Without(rooms[r].leases, i))];
      TakenKeeps(State(), kept, r, i);
      TakenRooms(rooms, kept, r, i, freeRoomIds, nextRoomId);
      rooms := rooms[r := rooms[r].(leases := Without(rooms[r].leases, i))];
      FreeIfGone(lease.peerId);
    }

    method FreeIfGone(peerId: nat)
      requires Inv(State()) && peerId < nextPeerId && NoLease(rooms, peerId)
      modifies this`peerMap, this`freePeerIds
      ensures Inv(State())
    {
      hide Inv, NoLease;
      var live := FindClient(peerId);
      if live.None? {
        ReleasePeerId(peerId);
      }
    }

    /** The loop over the leases of one room. */
    method CleanRoom(r: nat, now: int, net: Net) returns (changed: bool)
      requires Stable() && r in rooms
      modifies this`clients, this`rooms, this`peerMap, this`freePeerIds
      ensures Stable() && rooms.Keys == old(rooms).Keys
      ensures !changed ==> Marked(old(rooms), rooms)
      ensures var one := Swept(old(clients), r, old(rooms)[r], now, net.told);
        rooms == old(rooms)[r := one.0] && clients == one.1
    {
      hide Inv, RoomsOk, Marked, L.Listable, EnsureHost, Survivors, Refreshed, Live, Expired, FromLease, Lose;
      changed := false;
      MarkedSelf(rooms);
      var i := 0;
      ghost var start, all := rooms, Survivors(clients, r, rooms[r].leases, now, net.told);
      FirstLease(clients, r, rooms[r].leases, now, net.told);
      while i < |rooms[r].leases|
        invariant Stable() && r in rooms && rooms.Keys == old(rooms).Keys && 0 <= i <= |rooms[r].leases|
        invariant rooms == WithLeases(start, r, rooms[r].leases)
        invariant FromLease(clients, r, rooms[r].leases, i, now, net.told) == all
        invariant !changed ==> Marked(old(rooms), rooms)
        decreases |rooms[r].leases| - i
      {
        ghost var before := rooms;
        SurvivorsKept(clients, r, rooms[r].leases, i, now, net.told);
        var one, removed := CleanLease(r, i, now, net);
        if one {
          changed := true;
        }
        if !changed {
          MarkedTwice(old(rooms), before, rooms);
        }
        if !removed {
          i := i + 1;
        }
      }
      LastLease(clients, r, rooms[r].leases, now, net.told);
      assert rooms[r].leases == all.0 && clients == all.1;
      ghost var leased := rooms;
      HostRoom(r);
      if !changed {
        MarkedTwice(old(rooms), leased, rooms);
      }
    }

    /** room->ensureHost() */
    method HostRoom(r: nat)
      requires Stable() && r in rooms
      modifies this`rooms
      ensures Stable() && rooms == old(rooms)[r := EnsureHost(old(rooms)[r])] && Marked(old(rooms), rooms)
    {
      hide Inv, RoomsOk, Marked, L.Listable, EnsureHost;
      MarkedHost(rooms, r, EnsureHost(rooms[r]).hostPeerId);
      ghost var hosted := rooms[r := EnsureHost(rooms[r])];
      MarkedKeeps(State(), hosted);
      MarkedRooms(rooms, hosted, freeRoomIds, nextRoomId);
      rooms := rooms[r := EnsureHost(rooms[r])];
    }

    /** cleanupExpiredLeases */
    method CleanupExpiredLeases(now: int, net: Net)
      requires Valid()
      modifies this`clients, this`rooms, this`peerMap, this`freePeerIds, this`freeRoomIds, publisher
      ensures Valid()
      ensures rooms == Cleaned(old(clients), old(rooms), now, net)
      ensures clients == CleanedClients(old(clients), old(rooms), now, net)
    {
      hide Inv, RoomsOk, Marked, L.Listable, Collected, Sweep, NonEmpty, Lose, Lists;
      var changed := SweepRooms(now, net);
      if !changed {
        MarkedRooms(old(rooms), rooms, freeRoomIds, nextRoomId);
      }
      ghost var swept := rooms;
      var erased := EraseEmptyRooms();
      if erased {
        changed := true;
      }
      if changed {
        var sent := BroadcastRoomListPush();
        if sent {
          GiveUp(net.pushed);
        }
      }
    }

    /** The loop over the rooms. */
    method SweepRooms(now: int, net: Net) returns (changed: bool)
      requires Stable()
      modifies this`clients, this`rooms, this`peerMap, this`freePeerIds
      ensures Stable() && (!changed ==> Marked(old(rooms), rooms))
      ensures (clients, rooms) == Sweep(old(clients), old(rooms), old(rooms).Keys, now, net.told)
    {
      hide Inv, RoomsOk, Marked, L.Listable, Swept;
      changed := false;
      var left := rooms.Keys;
      MarkedSelf(rooms);
      while left != {}
        invariant Stable() && left <= rooms.Keys
        invariant !changed ==> Marked(old(rooms), rooms)
        invariant Sweep(clients, rooms, left, now, net.told) == Sweep(old(clients), old(rooms), old(rooms).Keys, now, net.told)
        decreases |left|
      {
        var r := NextRoom(left);
        OnlyRoom(left, r);
        ghost var before := rooms;
        var cleaned := CleanRoom(r, now, net);
        if cleaned {
          changed := true;
        }
        if !changed {
          MarkedTwice(old(rooms), before, rooms);
        }
        left := left - {r};
      }
    }

    method NextRoom(left: set<nat>) returns (r: nat)
      requires left != {}
      ensures r in left && forall q :: q in left ==> r <= q
    {
      ghost var m := L.MinKey(left);
      r :| r in left && forall q :: q in left ==> r <= q;
    }

    /** The rooms without leases go. */
    method EraseEmptyRooms() returns (changed: bool)
      requires Stable()
      modifies this`rooms, this`freeRoomIds
      ensures Stable() && Occupied(rooms)
      ensures changed == !Occupied(old(rooms)) && (!changed ==> rooms == old(rooms))
      ensures rooms == NonEmpty(old(rooms))
    {
      hide Inv, RoomsOk, L.Listable;
      changed := false;
      var left := rooms.Keys;
      while left != {}
        invariant Stable() && left <= rooms.Keys
        invariant forall q :: q in rooms ==> q in old(rooms) && rooms[q] == old(rooms)[q]
        invariant forall q :: q in old(rooms) && old(rooms)[q].leases != [] ==> q in rooms
        invariant forall q :: q in rooms && q !in left ==> rooms[q].leases != []
        invariant !changed ==> rooms == old(rooms)
        invariant changed ==> !Occupied(old(rooms))
        decreases |left|
      {
        var r := NextRoom(left);
        left := left - {r};
        if rooms[r].leases == [] {
          EraseOne(r);
          changed := true;
        }
      }
    }

    method EraseOne(r: nat)
      requires Stable() && r in rooms && rooms[r].leases == []
      modifies this`rooms, this`freeRoomIds
      ensures Stable() && rooms == old(rooms) - {r} && !Occupied(old(rooms))
    {
      hide Inv, RoomsOk, L.Listable;
      EraseKeeps(State(), r);
      ErasedRooms(rooms, r, freeRoomIds, nextRoomId);
      rooms := rooms - {r};
      freeRoomIds := freeRoomIds + {r};
    }

    // -------------------------------------------------------------- connections and handshake

    /** A pending connection becomes a signalling session. */
    method Connect(f: int)
      requires Valid() && f !in clients
      modifies this`clients
      ensures Valid() && clients == old(clients)[f := Blank()]
      ensures var s := clients[f];
        && s.state == AwaitHello && s.alive && !s.serverAuthOk && !s.secureEnabled && s.peerId == 0 && s.roomId == 0
        && s.resumeRoomId == 0 && s.resumeToken == 0 && s.pendingJoinRoomId == 0
    {
      hide Inv;
      AnonymousKeeps(State(), f, Blank());
      clients := clients[f := Blank()];
    }

    /** The outcome of onClientHello and onServerAuth: the next state, or a closing or lost session. */
    method Handshake(f: int, next: SessionState, alive: bool)
      requires Valid() && f in clients && (clients[f].state == AwaitHello || clients[f].state == AwaitServerAuth)
      requires next == Closing || next == clients[f].state
        || (next == AwaitServerAuth && clients[f].state == AwaitHello) || (next == AwaitLogin && clients[f].state == AwaitServerAuth)
      modifies this`clients
      ensures Valid() && f in clients && clients[f].state == next && clients[f].alive == (old(clients)[f].alive && alive)
      ensures clients == old(clients)[f := clients[f]]
      ensures clients[f].serverAuthOk == (old(clients)[f].serverAuthOk || next == AwaitLogin) && clients[f].peerId == old(clients)[f].peerId
    {
      hide Inv;
      SessionFacts(State(), f);
      var ready := next == AwaitLogin;
      var s := clients[f].(state := next, alive := clients[f].alive && alive,
        serverAuthOk := ready || clients[f].serverAuthOk, secureEnabled := ready || clients[f].secureEnabled);
      AnonymousKeeps(State(), f, s);
      clients := clients[f := s];
    }

    /** handleClientDisconnect: the lease stays, offline, unless the session has logged out. */
    method DisconnectOne(f: int, now: int)
      requires Valid() && f in clients
      modifies this`clients, this`peerMap, this`freePeerIds, this`rooms
      ensures Valid() && clients == old(clients) - {f} && Marked(old(rooms), rooms)
      ensures var s := old(clients)[f];
        rooms == Left(old(rooms), s, if s.state == Closing then LogoutComplete else Network, now)
      ensures var s := old(clients)[f];
        && (s.state == InRoom ==> OfflineUntil(old(rooms), rooms, s.roomId, s.peerId, now + 120))
        && (s.state == ResumePending ==> OfflineUntil(old(rooms), rooms, s.resumeRoomId, s.peerId, now + 120))
        && (s.state != InRoom && s.state != ResumePending ==> rooms == old(rooms))
    {
      hide Inv, RoomsOk, Marked, L.Listable, Collected, Left, OfflineUntil;
      ghost var before := rooms;
      LeftMeans(State(), f, if clients[f].state == Closing then LogoutComplete else Network, now);
      DestroyClient(f, if clients[f].state == Closing then LogoutComplete else Network, now);
      MarkedRooms(before, rooms, freeRoomIds, nextRoomId);
    }

    /** The sessions that checkTimeouts gives up. */
    method Disconnect(dead: seq<int>, now: int)
      requires Valid()
      modifies this`clients, this`peerMap, this`freePeerIds, this`rooms
      ensures Valid() && Marked(old(rooms), rooms)
      ensures forall g :: g in clients <==> g in old(clients) && g !in dead
      ensures forall g :: g in clients ==> clients[g] == old(clients)[g]
    {
      hide Valid, Marked, Left;
      MarkedSelf(rooms);
      for i := 0 to |dead|
        invariant Valid() && Marked(old(rooms), rooms)
        invariant forall g :: g in clients <==> g in old(clients) && g !in dead[..i]
        invariant forall g :: g in clients ==> clients[g] == old(clients)[g]
      {
        assert dead[..i + 1] == dead[..i] + [dead[i]];
        if dead[i] in clients {
          ghost var before := rooms;
          DisconnectOne(dead[i], now);
          MarkedTwice(old(rooms), before, rooms);
        }
      }
      assert dead[..|dead|] == dead;
    }

    // -------------------------------------------------------------- leaving

    method OnLeaveRoom(f: int, net: Net)
      requires Valid() && f in clients
      modifies this`clients, this`rooms, this`freeRoomIds, publisher
      ensures Valid() && f in clients
      ensures old(clients)[f].roomId == 0 ==> clients == old(clients) && rooms == old(rooms)
      ensures old(clients)[f].roomId != 0 ==>
        && rooms == Vacated(old(rooms), old(clients)[f].roomId, old(clients)[f].peerId) && NoLease(rooms, clients[f].peerId)
        && clients == Lose(old(clients)[f := OutOfRoom(old(clients)[f])], net.after)
      ensures old(clients)[f].roomId != 0 && old(clients)[f].alive ==>
        var s, shown := old(clients)[f], old(publisher.published);
        && s.roomId in old(rooms) && OneLess(old(rooms), rooms, s.roomId, s.peerId)
        && publisher.revision == old(publisher.revision) + 1 && OnePlayerLess(shown, publisher.published, s.roomId)
      ensures old(clients)[f].roomId != 0 ==>
        clients[f] == old(clients)[f].(roomId := 0, virtualIP := 0, resumeRoomId := 0, resumePeerId := 0, resumeToken := 0,
                                       state := LoggedIn, alive := clients[f].alive)
    {
      hide Valid, NoLease, Vacated, OneLess, OnePlayerLess, Lists, Lose;
      ghost var c, shown := State(), publisher.published;
      Shown();
      LeaverFacts(f);
      LeaveRoom(f, net);
      Shown();
      if c.clients[f].roomId != 0 {
        LoseAt(c.clients[f := OutOfRoom(c.clients[f])], net.after, f);
        if c.clients[f].alive {
          ListsLess(shown, c.rooms, publisher.published, rooms, c.clients[f].roomId, c.clients[f].peerId);
        }
      }
    }

    lemma LeaverFacts(f: int)
      requires Valid() && f in clients
      ensures var s := clients[f];
        s.alive && s.roomId != 0 ==> s.roomId in rooms && OneLess(rooms, Vacated(rooms, s.roomId, s.peerId), s.roomId, s.peerId)
    {
      hide Inv, RoomsOk, L.Listable, Collected, Occupied, HasLease, Vacated, OneLess;
      if clients[f].alive && clients[f].roomId != 0 {
        SeatedHas(State(), f);
        VacatedLess(rooms, clients[f].roomId, clients[f].peerId);
      }
    }

    method LeaveRoom(f: int, net: Net)
      requires Valid() && f in clients
      modifies this`clients, this`rooms, this`freeRoomIds, publisher
      ensures Valid() && f in clients
      ensures old(clients)[f].roomId == 0 ==> clients == old(clients) && rooms == old(rooms)
      ensures old(clients)[f].roomId != 0 ==>
        && rooms == Vacated(old(rooms), old(clients)[f].roomId, old(clients)[f].peerId) && NoLease(rooms, clients[f].peerId)
        && clients == Lose(old(clients)[f := OutOfRoom(old(clients)[f])], net.after)
        && publisher.revision == old(publisher.revision) + if publisher.published != old(publisher.published) then 1 else 0
    {
      hide Inv, RoomsOk, L.Listable, Collected, NoLease, HasLease, Vacated, Lists;
      ghost var c := State();
      SessionFacts(c, f);
      if clients[f].roomId == 0 {
        return;
      }
      var roomId := clients[f].roomId;
      var s := OutOfRoom(clients[f]);
      LeaseRoom(c, f);
      LeaveKeeps(c, f, roomId, s);
      RemoveLease(roomId, clients[f].peerId);
      clients := clients[f := s];
      var _ := BroadcastRoomListPush();
      GiveUp(net.after);
    }

    /** onLogout. The session gives up its id before the id is released; in the source the index no
     * longer leads to it by then. */
    method OnLogout(f: int, net: Net)
      requires Valid() && f in clients
      modifies this`clients, this`rooms, this`freeRoomIds, this`freePeerIds, this`peerMap, publisher
      ensures Valid() && clients == Lose(old(clients)[f := LoggedOff(old(clients)[f])], net.after)
      ensures old(clients)[f].peerId != 0 ==> old(clients)[f].peerId in freePeerIds && NoLease(rooms, old(clients)[f].peerId)
      ensures rooms == AfterLogout(old(rooms), old(clients)[f])
      ensures clients[f] == old(clients)[f].(state := Closing, peerId := 0, roomId := 0, virtualIP := 0, pendingJoinRoomId := 0,
                                             resumeRoomId := 0, resumePeerId := 0, resumeToken := 0, alive := clients[f].alive)
      ensures forall q :: HasLease(old(rooms), q, old(clients)[f].peerId) ==>
        q in old(rooms) && OneLess(old(rooms), rooms, q, old(clients)[f].peerId)
      ensures NoLease(old(rooms), old(clients)[f].peerId) ==> rooms == old(rooms)
    {
      hide Valid, NoLease, HasLease, OneLess, Lose, AfterLogout;
      ghost var c := State();
      LogoutFacts(f);
      LogOut(f, net);
      LoseAt(c.clients[f := LoggedOff(c.clients[f])], net.after, f);
    }

    lemma LogoutFacts(f: int)
      requires Valid() && f in clients
      ensures var s, n := clients[f], AfterLogout(rooms, clients[f]);
        && (forall q :: HasLease(rooms, q, s.peerId) ==> q in rooms && OneLess(rooms, n, q, s.peerId))
        && (NoLease(rooms, s.peerId) ==> n == rooms)
    {
      hide Inv, RoomsOk, L.Listable, Collected, OneLess, Vacated;
      var s := clients[f];
      SessionFacts(State(), f);
      forall q | HasLease(rooms, q, s.peerId)
        ensures q in rooms && OneLess(rooms, AfterLogout(rooms, s), q, s.peerId)
      {
        VacatedLess(rooms, q, s.peerId);
        var i :| InSlot(rooms, q, i) && rooms[q].leases[i].peerId == s.peerId;
        LeaseFacts(State(), q, i);
        LeaseRoom(State(), f);
        if s.state != InRoom && s.state != ResumePending {
          NoLeaseOf(State(), f);
          assert false;
        }
      }
      if NoLease(rooms, s.peerId) {
        NotFound(rooms, s.roomId, s.peerId);
        NotFound(rooms, s.resumeRoomId, s.peerId);
        NothingVacated(rooms, s.roomId, s.peerId);
        NothingVacated(rooms, s.resumeRoomId, s.peerId);
      }
    }

    method LogOut(f: int, net: Net)
      requires Valid() && f in clients
      modifies this`clients, this`rooms, this`freeRoomIds, this`freePeerIds, this`peerMap, publisher
      ensures Valid() && clients == Lose(old(clients)[f := LoggedOff(old(clients)[f])], net.after)
      ensures old(clients)[f].peerId != 0 ==> old(clients)[f].peerId in freePeerIds && NoLease(rooms, old(clients)[f].peerId)
      ensures rooms == AfterLogout(old(rooms), old(clients)[f])
    {
      hide Inv, RoomsOk, L.Listable, Collected, NoLease, HasLease, Vacated, Lose, LoggedOff, AfterLogout, Occupied, Lists;
      ghost var c := State();
      SessionFacts(c, f);
      var peerId := clients[f].peerId;
      var s := LoggedOff(clients[f]);
      LoggedOffPeer(clients[f]);
      var roomChanged := GiveUpLease(f, s);
      clients := clients[f := s];
      OnlyOwner(c, f);
      LoggedOut(c, clients, f, s);
      Forget(f, peerId);
      if roomChanged {
        var _ := BroadcastRoomListPush();
      }
      GiveUp(net.after);
    }

    /** The part of onLogout that gives up the peer id. */
    method Forget(f: int, peerId: nat)
      requires Inv(State()) && peerId < nextPeerId && (peerId != 0 ==> NoSession(clients, peerId) && NoLease(rooms, peerId))
      modifies this`peerMap, this`freePeerIds
      ensures Inv(State()) && (peerId != 0 ==> peerId in freePeerIds)
    {
      hide Inv, NoLease;
      if peerId in peerMap && peerMap[peerId] == f && peerId != 0 {
        UnindexKeeps(State(), peerId);
        peerMap := peerMap - {peerId};
      }
      if peerId != 0 {
        ReleasePeerId(peerId);
      }
    }

    /** The part of onLogout that gives up a lease, held or to be resumed. The invariant is stated for
     * the session that has logged off. */
    method GiveUpLease(f: int, s: Session) returns (roomChanged: bool)
      requires Valid() && f in clients && s == LoggedOff(clients[f])
      modifies this`rooms, this`freeRoomIds
      ensures Inv(State().(clients := clients[f := s]))
      ensures RoomsOk(rooms, freeRoomIds, nextRoomId) && Occupied(rooms) && (!roomChanged ==> rooms == old(rooms))
      ensures clients[f].peerId != 0 ==> NoLease(rooms, clients[f].peerId)
      ensures rooms == AfterLogout(old(rooms), clients[f])
    {
      hide Inv, RoomsOk, L.Listable, Collected, NoLease, HasLease, Vacated;
      ghost var c := State();
      SessionFacts(c, f);
      var peerId := clients[f].peerId;
      roomChanged := false;
      if clients[f].roomId != 0 && peerId != 0 {
        LeaseRoom(c, f);
        LeaveKeeps(c, f, clients[f].roomId, s);
        RemoveLease(clients[f].roomId, peerId);
        roomChanged := true;
      } else if clients[f].state == ResumePending && clients[f].resumeRoomId != 0 && clients[f].resumePeerId != 0 {
        var r := clients[f].resumeRoomId;
        LeaseRoom(c, f);
        LeaveKeeps(c, f, r, s);
        PendingLease(c, f);
        if r in rooms && Find(rooms[r].leases, clients[f].resumePeerId) < |rooms[r].leases|
          && rooms[r].leases[Find(rooms[r].leases, clients[f].resumePeerId)].token == clients[f].resumeToken {
          RemoveLease(r, clients[f].resumePeerId);
          roomChanged := true;
        } else {
          NothingVacated(rooms, r, peerId);
          AnonymousKeeps(c, f, s);
        }
      } else {
        AnonymousKeeps(c, f, s);
        if peerId != 0 {
          NoLeaseOf(c, f);
        }
      }
    }

    // -------------------------------------------------------------- login

    /** validateResumeLease */
    method ValidateResumeLease(resume: Resume, now: int) returns (ok: bool)
      requires Inv(State())
      ensures ok == LeaseValid(rooms, resume, now)
      ensures ok <==> Resumable(rooms, resume, now)
    {
      ValidMeans(rooms, resume, now);
      if resume.token == 0 {
        return false;
      }
      if resume.roomId !in rooms {
        return false;
      }
      var i := Find(rooms[resume.roomId].leases, resume.peerId);
      if i == |rooms[resume.roomId].leases| {
        return false;
      }
      var lease := rooms[resume.roomId].leases[i];
      if lease.token != resume.token {
        return false;
      }
      return lease.online || lease.expiresAt <= 0 || now <= lease.expiresAt;
    }

    /** Whoever holds the peer id of a lease is disconnected, and nobody else. */
    method TakeOver(f: int, r: nat, i: nat, now: int)
      requires Valid() && f in clients && clients[f].peerId == 0 && InSlot(rooms, r, i)
      modifies this`clients, this`peerMap, this`freePeerIds, this`rooms
      ensures Valid() && Marked(old(rooms), rooms) && NoSession(clients, old(rooms)[r].leases[i].peerId)
      ensures rooms == old(rooms) || rooms == Offline(old(rooms), r, old(rooms)[r].leases[i].peerId, now)
      ensures f in clients && OthersRemain(old(clients), clients, old(rooms)[r].leases[i].peerId)
    {
      hide Inv, RoomsOk, L.Listable, Collected, Marked, HasLease, Offline, Left;
      ghost var start, all := rooms, clients;
      var p := rooms[r].leases[i].peerId;
      LeaseFacts(State(), r, i);
      MarkedSelf(rooms);
      var owner := FindOwner(p);
      if owner.Some? && owner.value != f {
        OnlyOwner(State(), owner.value);
        OwnerLeaves(State(), owner.value, r, i, now);
        DestroyClient(owner.value, Takeover, now);
        OwnerGone(all, owner.value, p);
      }
      MarkedRooms(start, rooms, freeRoomIds, nextRoomId);
    }

    /** The resuming branch of onLogin: whoever holds the peer id is taken over. */
    method ResumeLogin(f: int, name: seq<Byte>, resume: Resume, now: int, net: Net)
      requires Valid() && f in clients && clients[f].state == AwaitLogin && LeaseValid(rooms, resume, now)
      modifies this`clients, this`peerMap, this`freePeerIds, this`rooms
      ensures Valid() && f in clients && resume.roomId in old(rooms)
      ensures var leases := old(rooms)[resume.roomId].leases; var i := Find(leases, resume.peerId);
        && i < |leases|
        && clients[f] == Resuming(old(clients)[f], name, resume.roomId, leases[i]).(alive := old(clients)[f].alive && net.accepted)
      ensures rooms == Offline(old(rooms), resume.roomId, resume.peerId, now)
      ensures OthersRemain(old(clients) - {f}, clients - {f}, resume.peerId)
      ensures Resumable(old(rooms), resume, now) && clients[f].resumeToken == resume.token
      ensures OfflineUntil(old(rooms), rooms, resume.roomId, resume.peerId, now + 120)
    {
      hide Valid, Offline, OfflineUntil, Resumable, LeaseValid, OthersRemain;
      ValidDistinct();
      ValidMeans(rooms, resume, now);
      OfflineMeans(rooms, resume.roomId, resume.peerId, now);
      FoundLease(rooms, resume, now);
      TakeLease(f, name, resume, now, net);
    }

    method TakeLease(f: int, name: seq<Byte>, resume: Resume, now: int, net: Net)
      requires Valid() && f in clients && clients[f].state == AwaitLogin && LeaseValid(rooms, resume, now)
      modifies this`clients, this`peerMap, this`freePeerIds, this`rooms
      ensures Valid() && f in clients && resume.roomId in old(rooms)
      ensures var leases := old(rooms)[resume.roomId].leases; var i := Find(leases, resume.peerId);
        && i < |leases|
        && clients[f] == Resuming(old(clients)[f], name, resume.roomId, leases[i]).(alive := old(clients)[f].alive && net.accepted)
      ensures rooms == Offline(old(rooms), resume.roomId, resume.peerId, now)
      ensures OthersRemain(old(clients) - {f}, clients - {f}, resume.peerId)
    {
      hide Inv, RoomsOk, L.Listable, Collected, Marked, HasLease, SessionOk, Offline;
      var r, p := resume.roomId, resume.peerId;
      var i := Find(rooms[r].leases, p);
      SessionFacts(State(), f);
      AnonymousLogin(clients[f]);
      LeaseFacts(State(), r, i);
      ghost var start, all := rooms, clients;
      TakeOver(f, r, i, now);
      TakenOverLease(start, rooms, r, i, now);
      LoginToLease(f, name, r, i);
      OfflineTwice(start, r, p, now);
      SetOffline(r, p, now);
      if !net.accepted {
        Die(f);
      }
      OthersWithout(all, clients, f, p);
    }

    /** markLeaseOffline outside a disconnect. */
    method SetOffline(r: nat, p: nat, now: int)
      requires Valid()
      modifies this`rooms
      ensures Valid() && Marked(old(rooms), rooms) && rooms == Offline(old(rooms), r, p, now)
    {
      hide Inv, RoomsOk, L.Listable, Collected, Marked, HasLease, Offline;
      ghost var before := rooms;
      var _ := MarkLeaseOffline(r, p, now);
      MarkedRooms(before, rooms, freeRoomIds, nextRoomId);
    }

    method Die(f: int)
      requires Valid() && f in clients
      modifies this`clients
      ensures Valid() && clients == old(clients)[f := old(clients)[f].(alive := false)]
    {
      hide Inv;
      DieKeeps(State(), f);
      clients := clients[f := clients[f].(alive := false)];
    }

    method LoginToLease(f: int, name: seq<Byte>, r: nat, i: nat)
      requires Valid() && f in clients && clients[f].state == AwaitLogin && InSlot(rooms, r, i)
      requires NoSession(clients, rooms[r].leases[i].peerId)
      modifies this`clients, this`peerMap
      ensures Valid() && clients == old(clients)[f := Resuming(old(clients)[f], name, r, rooms[r].leases[i])]
    {
      hide Inv, RoomsOk, L.Listable, Collected, HasLease, SessionOk;
      var lease := rooms[r].leases[i];
      LeaseFacts(State(), r, i);
      RoomIdPositive(rooms, freeRoomIds, nextRoomId, r);
      var bound := BindPeerIndex(f, lease.peerId);
      assert bound;
      var s := clients[f].(name := if lease.name == [] then name else lease.name, peerId := lease.peerId,
        resumeRoomId := r, resumePeerId := lease.peerId, resumeToken := lease.token, state := ResumePending);
      PendingKeeps(State(), f, s, r, i);
      clients := clients[f := s];
    }

    /** onLogin. None stands for a payload that does not parse. The session ends up with the identity of a
     * lease if and only if the token of the payload opens that lease; else no session and no lease is
     * touched. */
    method OnLogin(f: int, login: Option<Login>, now: int, net: Net)
      requires Valid() && f in clients
      modifies this`clients, this`peerMap, this`freePeerIds, this`nextPeerId, this`rooms
      ensures Valid() && f in clients
      ensures old(clients)[f].state != AwaitLogin || login.None? ==>
        clients == old(clients)[f := old(clients)[f].(alive := false)] && rooms == old(rooms)
      ensures old(clients)[f].state == AwaitLogin && login.Some? ==>
        LoginOutcome(old(clients), old(rooms), clients, rooms, f, login.value, now, net)
      ensures old(clients)[f].state == AwaitLogin ==> (clients[f].state == ResumePending <==> MayResume(login, old(rooms), now))
      ensures !(old(clients)[f].state == AwaitLogin && MayResume(login, old(rooms), now)) ==>
        rooms == old(rooms) && clients == old(clients)[f := clients[f]]
      ensures old(clients)[f].state == AwaitLogin && MayResume(login, old(rooms), now) ==>
        var w := login.value.resume.value;
        && Holds(clients[f], w) && NamedAfter(clients[f], login.value.name, old(rooms), w)
        && OfflineUntil(old(rooms), rooms, w.roomId, w.peerId, now + 120)
        && (forall g :: g != f ==> (g in clients <==> g in old(clients) && old(clients)[g].peerId != w.peerId))
        && (forall g :: g != f && g in clients ==> clients[g] == old(clients)[g])
      ensures clients[f].alive == (old(clients)[f].alive && net.accepted && old(clients)[f].state == AwaitLogin && login.Some?)
      ensures old(clients)[f].state == AwaitLogin ==>
        && (clients[f].state == LoggedIn <==>
              && login.Some? && login.value.version == 9 && login.value.nameValid && !MayResume(login, old(rooms), now)
              && !NameInUse(old(clients), f, login.value.name))
        && (clients[f].state == LoggedIn ==>
              && clients[f].name == login.value.name && clients[f].peerId != 0
              && NoSession(old(clients), clients[f].peerId) && NoLease(old(rooms), clients[f].peerId))
    {
      hide Valid, LoginOutcome, MayResume, NameInUse, NoSession, NoLease, OfflineUntil, NamedAfter;
      ghost var c := State();
      assert Distinct(rooms) by {
        ValidDistinct();
      }
      HandleLogin(f, login, now, net);
      if c.clients[f].state == AwaitLogin {
        if login.Some? {
          LoginMeans(c.clients, c.rooms, clients, rooms, f, login.value, now, net);
        } else {
          NoLogin(login, c.rooms, now);
        }
      }
    }

    lemma ValidDistinct()
      requires Valid()
      ensures Distinct(rooms)
    {
    }

    /** The room list that has been published is the current one at every handler boundary. */
    lemma Shown()
      requires Valid()
      ensures Lists(publisher.published, rooms) && publisher.published == Collected(rooms)
    {
      CollectedLists(rooms, freeRoomIds, nextRoomId);
    }

    method HandleLogin(f: int, login: Option<Login>, now: int, net: Net)
      requires Valid() && f in clients
      modifies this`clients, this`peerMap, this`freePeerIds, this`nextPeerId, this`rooms
      ensures Valid() && f in clients
      ensures old(clients)[f].state != AwaitLogin || login.None? ==>
        clients == old(clients)[f := old(clients)[f].(alive := false)] && rooms == old(rooms)
      ensures old(clients)[f].state == AwaitLogin && login.Some? ==>
        LoginOutcome(old(clients), old(rooms), clients, rooms, f, login.value, now, net)
    {
      hide Inv, RoomsOk, L.Listable, Collected, HasLease, NoLease, NoSession, Offline, LeaseValid, NameTaken, OthersRemain;
      if clients[f].state != AwaitLogin || login.None? {
        DieKeeps(State(), f);
        clients := clients[f := clients[f].(alive := false)];
        return;
      }
      SessionFacts(State(), f);
      var v := login.value;
      if v.version != PROTOCOL_VERSION {
        Answer(f, net);
        SessionFacts(State(), f);
        AnonymousKeeps(State(), f, clients[f].(state := Closing));
        clients := clients[f := clients[f].(state := Closing)];
        return;
      }
      if !v.nameValid {
        Answer(f, net);
        return;
      }
      if v.resume.Some? {
        var valid := ValidateResumeLease(v.resume.value, now);
        if valid {
          ResumeLogin(f, v.name, v.resume.value, now, net);
          return;
        }
      }
      if NameTaken(clients, f, v.name) {
        Answer(f, net);
        return;
      }
      FreshLogin(f, v.name, net);
    }

    /** A message to the requester, an error for the most part: sendError. */
    method Answer(f: int, net: Net)
      requires Inv(State()) && f in clients
      modifies this`clients
      ensures Inv(State()) && clients == Answered(old(clients), f, net)
    {
      hide Inv;
      if net.accepted {
        SameSession(clients, f);
      } else {
        DieKeeps(State(), f);
        clients := clients[f := clients[f].(alive := false)];
      }
    }

    /** The plain branch of onLogin. */
    method FreshLogin(f: int, name: seq<Byte>, net: Net)
      requires Valid() && f in clients && clients[f].state == AwaitLogin
      modifies this`clients, this`peerMap, this`freePeerIds, this`nextPeerId
      ensures Valid() && f in clients && clients[f].state == LoggedIn && clients[f].peerId != 0
      ensures NoSession(old(clients), clients[f].peerId) && NoLease(old(rooms), clients[f].peerId)
      ensures clients == old(clients)[f := NewSession(old(clients)[f], name, clients[f].peerId).(alive := old(clients)[f].alive && net.accepted)]
    {
      hide Inv, RoomsOk, L.Listable, Collected, HasLease, NoLease, NoSession, SessionOk;
      SessionFacts(State(), f);
      var p := AllocatePeerId();
      var bound := BindPeerIndex(f, p);
      assert bound;
      var s := clients[f].(name := name, peerId := p, resumeRoomId := 0, resumePeerId := 0, resumeToken := 0, state := LoggedIn,
        alive := clients[f].alive && net.accepted);
      FreshKeeps(State(), f, s);
      clients := clients[f := s];
    }

    // -------------------------------------------------------------- joining

    method AllocateRoomId() returns (r: nat)
      requires RoomsOk(rooms, freeRoomIds, nextRoomId)
      modifies this`freeRoomIds, this`nextRoomId
      ensures RoomsOk(rooms, freeRoomIds, nextRoomId) && 0 < r < nextRoomId && r !in freeRoomIds && r !in rooms
      ensures if old(freeRoomIds) == {} then r == old(nextRoomId) else r in old(freeRoomIds) && forall q :: q in old(freeRoomIds) ==> r <= q
    {
      hide RoomOk;
      if freeRoomIds != {} {
        r := NextRoom(freeRoomIds);
        freeRoomIds := freeRoomIds - {r};
      } else {
        r := nextRoomId;
        nextRoomId := nextRoomId + 1;
      }
    }

    /** addLease, and the session's move into the room: it succeeds unless the room is full. */
    method Join(f: int, r: nat, token: Token) returns (ok: bool)
      requires Stable() && f in clients && r in rooms && token != 0 && clients[f].state == LoggedIn
      modifies this`clients, this`rooms
      ensures Stable() && (ok <==> |old(rooms)[r].leases| < old(rooms)[r].info.maxPlayers)
      ensures !ok ==> rooms == old(rooms) && clients == old(clients)
      ensures ok ==>
        && rooms == Joined(old(rooms), r, old(clients)[f], token)
        && clients == old(clients)[f := Member(old(clients)[f], r, NewLease(old(rooms)[r].leases, old(clients)[f], token))]
    {
      hide Inv, L.Listable, Given, HasLease, AllocateIP, SessionOk, RoomsOk;
      var room, p := rooms[r], clients[f].peerId;
      JoinFacts(State(), f, r, freeRoomIds, nextRoomId);
      if |room.leases| >= room.info.maxPlayers || Find(room.leases, p) < |room.leases| {
        return false;
      }
      var ip := AllocateIP(room.leases, FIRST_SUFFIX);
      AddressLeft(room.leases);
      if ip == 0 {
        return false;
      }
      JoinKeeps(State(), f, r, token, freeRoomIds, nextRoomId);
      var lease := Lease(p, ip, clients[f].name, token, true, 0);
      rooms := rooms[r := EnsureHost(room.(leases := room.leases + [lease]))];
      clients := clients[f := clients[f].(virtualIP := ip, roomId := r, resumeRoomId := r, resumePeerId := p, resumeToken := token,
        state := InRoom)];
      return true;
    }

    /** rollbackNewMembership */
    method Rollback(f: int)
      requires Stable() && Occupied(rooms) && f in clients && clients[f].state == InRoom
      modifies this`clients, this`rooms, this`freeRoomIds
      ensures Stable() && Occupied(rooms) && f in clients && clients[f].state == LoggedIn && !clients[f].alive
      ensures rooms == Vacated(old(rooms), old(clients)[f].roomId, old(clients)[f].peerId)
      ensures clients == old(clients)[f := OutOfRoom(old(clients)[f]).(alive := false)] && NoLease(rooms, clients[f].peerId)
    {
      hide Inv, RoomsOk, L.Listable, HasLease, Vacated, NoLease;
      SessionFacts(State(), f);
      var s := OutOfRoom(clients[f]).(alive := false);
      LeaseRoom(State(), f);
      LeaveKeeps(State(), f, clients[f].roomId, s);
      RemoveLease(clients[f].roomId, clients[f].peerId);
      clients := clients[f := s];
    }

    /** onCreateRoom. info is the checked payload, if it passes all checks; token is 0 if no random
     * token could be made. */
    method OnCreateRoom(f: int, allowed: bool, info: Option<L.RoomInfo>, token: Token, net: Net)
      requires Valid() && f in clients && clients[f].state == LoggedIn
      requires info.Some? ==> 2 <= info.value.maxPlayers <= MAX_PLAYERS && |info.value.name| <= L.MAX_ROOM_NAME
      modifies this`clients, this`rooms, this`freeRoomIds, this`nextRoomId, publisher
      ensures Valid() && f in clients && (clients[f].state == InRoom || clients[f].state == LoggedIn)
      ensures clients[f].state == InRoom <==>
        allowed && |old(rooms)| < maxRooms && info.Some? && token != 0 && net.accepted && old(clients)[f].alive
      ensures clients[f].state == InRoom ==>
        && clients[f].roomId !in old(rooms)
        && var r, founded := clients[f].roomId, WithRoom(old(rooms), clients[f].roomId, info.value, old(clients)[f].peerId);
          Completed(old(clients), founded, clients, rooms, f, r, token, net)
      ensures clients[f].state == LoggedIn ==> Collected(rooms) == Collected(old(rooms))
      ensures !(allowed && |old(rooms)| < maxRooms && info.Some? && token != 0) ==>
        rooms == old(rooms) && clients == Answered(old(clients), f, net)
      ensures clients[f].state == InRoom ==>
        && OneMore(old(rooms)[clients[f].roomId := Room(info.value, old(clients)[f].peerId, [])], rooms, clients[f].roomId,
                   old(clients)[f], clients[f], token)
        && publisher.published == old(publisher.published)[clients[f].roomId := info.value.(players := 1)]
        && publisher.revision == old(publisher.revision) + 1
      ensures clients[f].state == LoggedIn ==> publisher.published == old(publisher.published) && publisher.revision == old(publisher.revision)
    {
      hide Valid, Collected, Completed, OneMore, Lists, WithRoom;
      ghost var c, shown := State(), publisher.published;
      Shown();
      Create(f, allowed, info, token, net);
      Shown();
      if clients[f].state == InRoom {
        var r := clients[f].roomId;
        WithRoomMeans(c.rooms, r, info.value, c.clients[f].peerId);
        CompletedMeans(c.clients, WithRoom(c.rooms, r, info.value, c.clients[f].peerId), clients, rooms, f, r, token, net);
        CreatedIs(c.rooms, r, info.value, c.clients[f].peerId);
        ListsNew(shown, c.rooms, publisher.published, rooms, r, info.value, c.clients[f].peerId, c.clients[f], clients[f], token);
      }
    }

    method Create(f: int, allowed: bool, info: Option<L.RoomInfo>, token: Token, net: Net)
      requires Valid() && f in clients && clients[f].state == LoggedIn
      requires info.Some? ==> 2 <= info.value.maxPlayers <= MAX_PLAYERS && |info.value.name| <= L.MAX_ROOM_NAME
      modifies this`clients, this`rooms, this`freeRoomIds, this`nextRoomId, publisher
      ensures Valid() && f in clients && (clients[f].state == InRoom || clients[f].state == LoggedIn)
      ensures clients[f].state == InRoom <==>
        allowed && |old(rooms)| < maxRooms && info.Some? && token != 0 && net.accepted && old(clients)[f].alive
      ensures clients[f].state == InRoom ==>
        && clients[f].roomId !in old(rooms)
        && var r, founded := clients[f].roomId, WithRoom(old(rooms), clients[f].roomId, info.value, old(clients)[f].peerId);
          Completed(old(clients), founded, clients, rooms, f, r, token, net)
      ensures clients[f].state == LoggedIn ==> Collected(rooms) == Collected(old(rooms))
      ensures !(allowed && |old(rooms)| < maxRooms && info.Some? && token != 0) ==>
        rooms == old(rooms) && clients == Answered(old(clients), f, net)
      ensures publisher.revision == old(publisher.revision) + if publisher.published != old(publisher.published) then 1 else 0
    {
      hide Inv, RoomsOk, L.Listable, Collected, HasLease, NoLease, Joined, WithRoom, NewLease;
      if !allowed || |rooms| >= maxRooms || info.None? || token == 0 {
        Answer(f, net);
        return;
      }
      ghost var start := rooms;
      NoLeaseOf2(State(), f);
      var r := OpenRoom(info.value, clients[f].peerId);
      WithRoomMeans(start, r, info.value, clients[f].peerId);
      Found(f, r, token, net);
    }

    /** The creator joins the new room. A new room always has a free address, so the branch that
     * takes the room back is never entered. */
    method Found(f: int, r: nat, token: Token, net: Net)
      requires Stable() && f in clients && clients[f].state == LoggedIn && r in rooms && rooms[r].leases == [] && token != 0
      requires NoLease(rooms, clients[f].peerId) && 0 < rooms[r].info.maxPlayers
      requires Occupied(rooms - {r}) && publisher.published == Collected(rooms - {r})
      modifies this`clients, this`rooms, this`freeRoomIds, publisher
      ensures Valid() && f in clients && (clients[f].state == InRoom || clients[f].state == LoggedIn)
      ensures clients[f].state == InRoom <==> net.accepted && old(clients)[f].alive
      ensures clients[f].state == InRoom ==> clients[f].roomId == r
      ensures clients[f].state == LoggedIn ==> Collected(rooms) == old(publisher.published)
      ensures Completed(old(clients), old(rooms), clients, rooms, f, r, token, net)
      ensures publisher.revision == old(publisher.revision) + if publisher.published != old(publisher.published) then 1 else 0
    {
      hide Inv, RoomsOk, L.Listable, Collected, HasLease, Given, Vacated, NoLease, Joined, NewLease, Lose, Member, Completed, Finished;
      ghost var joined, s, before := rooms, clients[f], clients;
      ghost var l := NewLease(joined[r].leases, s, token);
      MemberAt(s, r, l);
      var ok := Join(f, r, token);
      if !ok {
        assert false;
      }
      JoinedMeans(joined, r, s, token);
      NewLeasePeer(joined[r].leases, s, token);
      ghost var start: Rooms := joined - {r};
      GivenOccupied(joined, rooms, r, l, start);
      CreatedAndGone(start, joined, rooms, r, joined[r], l);
      FinishJoin(f, net);
      IsCompleted(before, joined, clients, rooms, f, r, token, net);
    }

    /** createRoom: an empty room under a fresh id. */
    method OpenRoom(info: L.RoomInfo, host: nat) returns (r: nat)
      requires Stable() && |rooms| < maxRooms
      requires 2 <= info.maxPlayers <= MAX_PLAYERS && |info.name| <= L.MAX_ROOM_NAME
      modifies this`rooms, this`freeRoomIds, this`nextRoomId
      ensures Stable() && r !in old(rooms) && rooms == WithRoom(old(rooms), r, info, host)
      ensures forall p :: NoLease(old(rooms), p) ==> NoLease(rooms, p)
    {
      hide Inv, L.Listable, HasLease, NoLease;
      r := AllocateRoomId();
      var room := Room(info, host, []);
      NewRoomKeeps(State(), r, room);
      NewRoomOk(rooms, r, room, freeRoomIds, nextRoomId);
      rooms := rooms[r := room];
    }

    /** The end of onCreateRoom and completeJoin: roll back if the response is not accepted, publish
     * the new member otherwise. */
    method FinishJoin(f: int, net: Net)
      requires Stable() && Occupied(rooms) && f in clients && clients[f].state == InRoom
      requires Collected(Vacated(rooms, clients[f].roomId, clients[f].peerId)) == publisher.published
      modifies this`clients, this`rooms, this`freeRoomIds, publisher
      ensures Valid() && f in clients
      ensures clients[f].state == if net.accepted && old(clients)[f].alive then InRoom else LoggedIn
      ensures clients[f].state == LoggedIn ==> Collected(rooms) == old(publisher.published)
      ensures Finished(old(clients), old(rooms), clients, rooms, f, net)
      ensures publisher.revision == old(publisher.revision) + if publisher.published != old(publisher.published) then 1 else 0
    {
      hide Inv, RoomsOk, L.Listable, Collected, HasLease, Vacated, NoLease, Lose, Lists;
      if !net.accepted || !clients[f].alive {
        Rollback(f);
        return;
      }
      var _ := BroadcastRoomListPush();
      LoseAt(clients, net.after, f);
      GiveUp(net.after);
    }

    /** completeJoin: the session is in the room exactly when there was room and the response was
     * accepted; otherwise the room list is as before. */
    method CompleteJoin(f: int, r: nat, token: Token, net: Net)
      requires Valid() && f in clients && clients[f].state == LoggedIn && r in rooms
      modifies this`clients, this`rooms, this`freeRoomIds, publisher
      ensures Valid() && f in clients && (clients[f].state == InRoom || clients[f].state == LoggedIn)
      ensures clients[f].state == InRoom <==>
        token != 0 && |old(rooms)[r].leases| < old(rooms)[r].info.maxPlayers && net.accepted && old(clients)[f].alive
      ensures clients[f].state == LoggedIn ==> Collected(rooms) == Collected(old(rooms))
      ensures if token != 0 && |old(rooms)[r].leases| < old(rooms)[r].info.maxPlayers
              then Completed(old(clients), old(rooms), clients, rooms, f, r, token, net)
              else clients == Answered(old(clients), f, net) && rooms == old(rooms)
      ensures clients[f].state == InRoom ==>
        && OneMore(old(rooms), rooms, r, old(clients)[f], clients[f], token)
        && OnePlayerMore(old(publisher.published), publisher.published, r)
        && publisher.revision == old(publisher.revision) + 1
      ensures clients[f].state == LoggedIn ==> publisher.published == old(publisher.published) && publisher.revision == old(publisher.revision)
    {
      hide Valid, Collected, Completed, OneMore, OnePlayerMore, Lists;
      ghost var c, shown := State(), publisher.published;
      Shown();
      PlacesBounded(r);
      TryJoin(f, r, token, net);
      Shown();
      if clients[f].state == InRoom {
        CompletedMeans(c.clients, c.rooms, clients, rooms, f, r, token, net);
        ListsMore(shown, c.rooms, publisher.published, rooms, r, c.clients[f], clients[f], token);
      }
    }

    lemma PlacesBounded(r: nat)
      requires Valid() && r in rooms
      ensures |rooms[r].leases| <= MAX_PLAYERS
    {
      hide Inv, L.Listable, Collected, Occupied;
    }

    method TryJoin(f: int, r: nat, token: Token, net: Net)
      requires Valid() && f in clients && clients[f].state == LoggedIn && r in rooms
      modifies this`clients, this`rooms, this`freeRoomIds, publisher
      ensures Valid() && f in clients && (clients[f].state == InRoom || clients[f].state == LoggedIn)
      ensures clients[f].state == InRoom <==>
        token != 0 && |old(rooms)[r].leases| < old(rooms)[r].info.maxPlayers && net.accepted && old(clients)[f].alive
      ensures clients[f].state == LoggedIn ==> Collected(rooms) == Collected(old(rooms))
      ensures if token != 0 && |old(rooms)[r].leases| < old(rooms)[r].info.maxPlayers
              then Completed(old(clients), old(rooms), clients, rooms, f, r, token, net)
              else clients == Answered(old(clients), f, net) && rooms == old(rooms)
      ensures publisher.revision == old(publisher.revision) + if publisher.published != old(publisher.published) then 1 else 0
    {
      hide Inv, RoomsOk, L.Listable, Collected, HasLease, Given, Vacated, NoLease, Joined, NewLease, Lose, Completed;
      if token == 0 {
        Answer(f, net);
        return;
      }
      if |rooms[r].leases| >= rooms[r].info.maxPlayers {
        Answer(f, net);
        return;
      }
      TakePlace(f, r, token, net);
    }

    /** completeJoin in a room with a place. */
    method TakePlace(f: int, r: nat, token: Token, net: Net)
      requires Valid() && f in clients && clients[f].state == LoggedIn && HasPlace(rooms, r) && token != 0
      modifies this`clients, this`rooms, this`freeRoomIds, publisher
      ensures Valid() && f in clients
      ensures clients[f].state == if net.accepted && old(clients)[f].alive then InRoom else LoggedIn
      ensures clients[f].state == LoggedIn ==> Collected(rooms) == Collected(old(rooms))
      ensures Completed(old(clients), old(rooms), clients, rooms, f, r, token, net)
      ensures publisher.revision == old(publisher.revision) + if publisher.published != old(publisher.published) then 1 else 0
    {
      hide Inv, RoomsOk, L.Listable, Collected, HasLease, Given, Vacated, NoLease, Joined, NewLease, Lose, Member, Completed, Finished;
      ghost var start, s, before := rooms, clients[f], clients;
      ghost var l := NewLease(start[r].leases, s, token);
      MemberAt(s, r, l);
      NoLeaseOf2(State(), f);
      var ok := Join(f, r, token);
      if !ok {
        assert false;
      }
      JoinedMeans(start, r, s, token);
      NewLeasePeer(start[r].leases, s, token);
      GivenOccupied(start, rooms, r, l, start);
      JoinedAndGone(start, rooms, r, l);
      FinishJoin(f, net);
      IsCompleted(before, start, clients, rooms, f, r, token, net);
    }

    /** onJoinRoom. allowed is the password rate limit, challenge whether a challenge could be made. */
    method OnJoinRoom(f: int, r: nat, allowed: bool, challenge: bool, token: Token, now: int, net: Net)
      requires Valid() && f in clients && clients[f].state == LoggedIn
      modifies this`clients, this`rooms, this`freeRoomIds, this`freePeerIds, this`peerMap, publisher
      ensures Valid() && f in clients
      ensures JoinOutcome(CleanedClients(old(clients), old(rooms), now, net), Cleaned(old(clients), old(rooms), now, net),
                          clients, rooms, f, r, token, net, allowed && challenge)
      ensures clients[f].state == InRoom ==>
        r in old(rooms) && old(rooms)[r].info.password == 0 && token != 0 && net.accepted && clients[f].roomId == r
      ensures clients[f].state == AwaitRoomPassword ==>
        r in old(rooms) && old(rooms)[r].info.password != 0 && allowed && challenge && clients[f].pendingJoinRoomId == r
      ensures clients[f].state == InRoom || clients[f].state == AwaitRoomPassword || clients[f].state == LoggedIn
      ensures clients[f].state == LoggedIn && r in rooms && |rooms[r].leases| < rooms[r].info.maxPlayers ==>
        if rooms[r].info.password == 0 then token == 0 || !clients[f].alive else !(allowed && challenge)
    {
      hide Valid, Cleaned, CleanedClients, JoinOutcome;
      ghost var before, leases := clients, rooms;
      CleanupExpiredLeases(now, net);
      CleanedAt(before, leases, now, net, f);
      CleanedInfo(before, leases, now, net, r);
      SameState(before[f], clients[f]);
      ghost var c := State();
      RequestJoin(f, r, allowed && challenge, token, net);
      JoinMeans(c.clients, c.rooms, clients, rooms, f, r, token, net, allowed && challenge);
    }

    /** onJoinRoom after lease expiry. */
    method RequestJoin(f: int, r: nat, asked: bool, token: Token, net: Net)
      requires Valid() && f in clients && clients[f].state == LoggedIn
      modifies this`clients, this`rooms, this`freeRoomIds, publisher
      ensures Valid() && f in clients && JoinOutcome(old(clients), old(rooms), clients, rooms, f, r, token, net, asked)
    {
      hide Valid, Completed, Collected;
      if r !in rooms || |rooms[r].leases| >= rooms[r].info.maxPlayers {
        Refuse(f, net);
        return;
      }
      if rooms[r].info.password != 0 {
        if asked {
          AskPassword(f, r);
        }
        Refuse(f, net);
        return;
      }
      CompleteJoin(f, r, token, net);
    }

    /** A message to the requester that changes nothing else. */
    method Refuse(f: int, net: Net)
      requires Valid() && f in clients
      modifies this`clients
      ensures Valid() && clients == Answered(old(clients), f, net)
    {
      hide Inv;
      Answer(f, net);
    }

    method AskPassword(f: int, r: nat)
      requires Valid() && f in clients && clients[f].state == LoggedIn
      modifies this`clients
      ensures Valid() && clients == old(clients)[f := old(clients)[f].(pendingJoinRoomId := r, state := AwaitRoomPassword)]
    {
      hide Inv;
      SessionFacts(State(), f);
      NoLeaseOf2(State(), f);
      var s := clients[f].(pendingJoinRoomId := r, state := AwaitRoomPassword);
      WaitKeeps(State(), f, s);
      clients := clients[f := s];
    }

    /** onAuthResponse. proof says whether the response has the right length and value. */
    method OnAuthResponse(f: int, proof: bool, token: Token, now: int, net: Net)
      requires Valid() && f in clients
      modifies this`clients, this`rooms, this`freeRoomIds, this`freePeerIds, this`peerMap, publisher
      ensures Valid() && f in clients
      ensures old(clients)[f].state != AwaitRoomPassword || old(clients)[f].pendingJoinRoomId == 0 ==>
        clients == Answered(old(clients), f, net) && rooms == old(rooms)
      ensures old(clients)[f].state == AwaitRoomPassword && old(clients)[f].pendingJoinRoomId != 0 ==>
        AnswerOutcome(CleanedClients(old(clients), old(rooms), now, net), Cleaned(old(clients), old(rooms), now, net),
                      clients, rooms, f, proof, token, net)
      ensures old(clients)[f].state == AwaitRoomPassword && old(clients)[f].pendingJoinRoomId != 0 ==>
        var r := old(clients)[f].pendingJoinRoomId;
        && (clients[f].state == InRoom ==> r in old(rooms) && proof && token != 0 && net.accepted && clients[f].roomId == r)
        && (clients[f].state != InRoom ==> clients[f].state == LoggedIn && clients[f].roomId == old(clients)[f].roomId)
        && (clients[f].state == LoggedIn && r in rooms && |rooms[r].leases| < rooms[r].info.maxPlayers && proof ==>
              token == 0 || !clients[f].alive)
    {
      hide Valid, Cleaned, CleanedClients, AnswerOutcome;
      SessionAt(f);
      if clients[f].state != AwaitRoomPassword || clients[f].pendingJoinRoomId == 0 {
        Refuse(f, net);
        return;
      }
      ghost var before, leases := clients, rooms;
      CleanupExpiredLeases(now, net);
      CleanedAt(before, leases, now, net, f);
      CleanedInfo(before, leases, now, net, before[f].pendingJoinRoomId);
      SameState(before[f], clients[f]);
      ghost var c := State();
      CheckAnswer(f, proof, token, net);
      AnswerMeans(c.clients, c.rooms, clients, rooms, f, proof, token, net);
    }

    lemma SessionAt(f: int)
      requires Valid() && f in clients
      ensures SessionOk(clients[f])
    {
      hide RoomsOk, L.Listable, Collected, Occupied, Distinct, LeasesOk, Matched, Seated;
    }

    /** onAuthResponse after lease expiry. */
    method CheckAnswer(f: int, proof: bool, token: Token, net: Net)
      requires Valid() && f in clients && clients[f].state == AwaitRoomPassword
      modifies this`clients, this`rooms, this`freeRoomIds, publisher
      ensures Valid() && f in clients && AnswerOutcome(old(clients), old(rooms), clients, rooms, f, proof, token, net)
    {
      hide Valid, Completed, Collected;
      var r := clients[f].pendingJoinRoomId;
      EndChallenge(f);
      if r !in rooms || !proof || |rooms[r].leases| >= rooms[r].info.maxPlayers {
        Refuse(f, net);
        return;
      }
      CompleteJoin(f, r, token, net);
    }

    method EndChallenge(f: int)
      requires Valid() && f in clients && clients[f].state == AwaitRoomPassword
      modifies this`clients
      ensures Valid() && clients == old(clients)[f := old(clients)[f].(pendingJoinRoomId := 0, state := LoggedIn)]
    {
      hide Inv;
      SessionFacts(State(), f);
      NoLeaseOf2(State(), f);
      var s := clients[f].(pendingJoinRoomId := 0, state := LoggedIn);
      WaitKeeps(State(), f, s);
      clients := clients[f := s];
    }

    // -------------------------------------------------------------- resuming

    /** completeResume */
    method CompleteResume(f: int, r: nat, i: nat, now: int, net: Net)
      requires Valid() && f in clients && clients[f].state == ResumePending && InSlot(rooms, r, i)
      requires rooms[r].leases[i].peerId == clients[f].peerId
      modifies this`clients, this`rooms, this`peerMap
      ensures Valid() && f in clients && Marked(old(rooms), rooms)
      ensures var s := old(clients)[f];
        var back := old(clients)[f := Returned(s, r, old(rooms)[r].leases[i])];
        if s.alive && net.accepted then clients == Lose(back, net.after) && rooms == Online(old(rooms), r, i)
        else clients == back[f := back[f].(alive := false)] && rooms == Offline(Online(old(rooms), r, i), r, s.peerId, now)
    {
      hide Inv, RoomsOk, L.Listable, Collected, Occupied, Marked, Online, Offline, Returned, Lose;
      ghost var start := rooms;
      ReturnedAt(clients[f], r, rooms[r].leases[i]);
      MarkLeaseOnline(r, i);
      MarkedLease(start, rooms, r, i);
      Sit(f, r, i);
      ghost var resumed := rooms;
      MarkedSelf(resumed);
      if !net.accepted || !clients[f].alive {
        FailResume(f, r, now);
      } else {
        GiveUp(net.after);
      }
      MarkedTwice(start, resumed, rooms);
    }

    /** A failed resume response: the lease stays, offline. */
    method FailResume(f: int, r: nat, now: int)
      requires Valid() && f in clients
      modifies this`clients, this`rooms
      ensures Valid() && Marked(old(rooms), rooms)
      ensures clients == old(clients)[f := old(clients)[f].(alive := false)]
      ensures rooms == Offline(old(rooms), r, old(clients)[f].peerId, now)
    {
      hide Inv, RoomsOk, L.Listable, Collected, Marked, Offline, Occupied;
      SetOffline(r, clients[f].peerId, now);
      Die(f);
    }

    /** markLeaseOnline */
    method MarkLeaseOnline(r: nat, i: nat)
      requires Valid() && InSlot(rooms, r, i)
      modifies this`rooms
      ensures Valid() && Marked(old(rooms), rooms) && rooms == Online(old(rooms), r, i)
      ensures rooms[r].leases == old(rooms)[r].leases[i := old(rooms)[r].leases[i].(online := true, expiresAt := 0)]
    {
      hide Inv, RoomsOk, L.Listable, Collected, Marked, EnsureHost;
      var lease := rooms[r].leases[i].(online := true, expiresAt := 0);
      var hosted := EnsureHost(rooms[r].(leases := rooms[r].leases[i := lease]));
      MarkedOne(rooms, r, i, lease, hosted.hostPeerId);
      MarkedKeeps(State(), rooms[r := hosted]);
      MarkedRooms(rooms, rooms[r := hosted], freeRoomIds, nextRoomId);
      rooms := rooms[r := hosted];
    }

    /** The session side of completeResume. */
    method Sit(f: int, r: nat, i: nat)
      requires Valid() && f in clients && clients[f].state == ResumePending && InSlot(rooms, r, i)
      requires rooms[r].leases[i].peerId == clients[f].peerId
      modifies this`clients, this`peerMap
      ensures Valid() && clients == old(clients)[f := Returned(old(clients)[f], r, rooms[r].leases[i])]
    {
      hide Inv, RoomsOk, L.Listable, Collected, HasLease, SessionOk;
      LeaseFacts(State(), r, i);
      RoomIdPositive(rooms, freeRoomIds, nextRoomId, r);
      var lease := rooms[r].leases[i];
      var bound := BindPeerIndex(f, clients[f].peerId);
      assert bound;
      var s := clients[f].(roomId := r, virtualIP := lease.virtualIP, name := lease.name, resumeRoomId := r,
        resumePeerId := clients[f].peerId, resumeToken := lease.token, state := InRoom);
      ResumedKeeps(State(), f, s, r, i);
      clients := clients[f := s];
    }

    /** onResumeRoom */
    method OnResumeRoom(f: int, resume: Resume, now: int, net: Net)
      requires Valid() && f in clients
      modifies this`clients, this`rooms, this`freeRoomIds, this`peerMap, publisher
      ensures Valid() && f in clients
      ensures !Awaited(old(clients)[f], resume) ==> clients == Answered(old(clients), f, net) && rooms == old(rooms)
      ensures Awaited(old(clients)[f], resume) ==>
        ResumeOutcome(old(clients), old(rooms), clients, rooms, f, resume, now, net)
      ensures old(clients)[f].state == ResumePending ==>
        (clients[f].state == InRoom <==> Holds(old(clients)[f], resume) && Resumable(old(rooms), resume, now))
      ensures old(clients)[f].state == ResumePending && clients[f].state == InRoom ==>
        && SitsIn(clients[f], old(rooms), resume)
        && if old(clients)[f].alive && net.accepted then Timed(old(rooms), rooms, resume.roomId, resume.peerId, true, 0)
           else Timed(old(rooms), rooms, resume.roomId, resume.peerId, false, now + 120) && !clients[f].alive
      ensures old(clients)[f].state == ResumePending && Holds(old(clients)[f], resume) && clients[f].state != InRoom ==>
        && NoLease(rooms, resume.peerId) && clients[f].state == LoggedIn && clients[f].peerId == resume.peerId
        && clients[f].resumeToken == 0
      ensures old(clients)[f].state != ResumePending || !Holds(old(clients)[f], resume) ==>
        rooms == old(rooms) && clients == old(clients)[f := old(clients)[f].(alive := clients[f].alive)]
    {
      hide Valid, ResumeOutcome, Resumable, NoLease, SitsIn, Timed;
      ghost var c := State();
      SessionAt(f);
      ValidDistinct();
      ResumeRoom(f, resume, now, net);
      if Awaited(c.clients[f], resume) {
        ResumeMeans(c.clients, c.rooms, clients, rooms, f, resume, now, net);
      }
    }

    method ResumeRoom(f: int, resume: Resume, now: int, net: Net)
      requires Valid() && f in clients
      modifies this`clients, this`rooms, this`freeRoomIds, this`peerMap, publisher
      ensures Valid() && f in clients
      ensures !Awaited(old(clients)[f], resume) ==> clients == Answered(old(clients), f, net) && rooms == old(rooms)
      ensures Awaited(old(clients)[f], resume) ==>
        ResumeOutcome(old(clients), old(rooms), clients, rooms, f, resume, now, net)
    {
      hide Inv, RoomsOk, L.Listable, Collected, HasLease, NoLease, Vacated, Marked, Online, Offline, Lose;
      SessionFacts(State(), f);
      if clients[f].peerId == 0 {
        Answer(f, net);
        return;
      }
      var r, p := resume.roomId, resume.peerId;
      if clients[f].state != ResumePending || clients[f].peerId != p || clients[f].resumeRoomId != r
        || clients[f].resumePeerId != p || clients[f].resumeToken != resume.token {
        Answer(f, net);
        return;
      }
      PendingLease(State(), f);
      var valid := ValidateResumeLease(resume, now);
      if !valid {
        FailedResume(f, resume, now, net);
        return;
      }
      CompleteResume(f, r, Find(rooms[r].leases, p), now, net);
    }

    /** The lease to resume is gone or has expired. */
    method FailedResume(f: int, resume: Resume, now: int, net: Net)
      requires Valid() && f in clients && Awaited(clients[f], resume) && !LeaseValid(rooms, resume, now)
      modifies this`clients, this`rooms, this`freeRoomIds, publisher
      ensures Valid() && f in clients
      ensures rooms == Vacated(old(rooms), resume.roomId, resume.peerId) && NoLease(rooms, resume.peerId)
      ensures clients == Lose(old(clients)[f := Unresumed(old(clients)[f])], net.after)
    {
      hide Inv, RoomsOk, L.Listable, Collected, HasLease, NoLease, Vacated, Marked, Lose, Lists;
      SessionFacts(State(), f);
      PendingLease(State(), f);
      var r, p := resume.roomId, resume.peerId;
      var i := if r in rooms then Find(rooms[r].leases, p) else 0;
      if r in rooms && i < |rooms[r].leases| && !rooms[r].leases[i].online && rooms[r].leases[i].expiresAt > 0
        && now > rooms[r].leases[i].expiresAt && rooms[r].leases[i].token == resume.token {
        PendingAlone(State(), f);
        LeaseRoom(State(), f);
        VacateKeeps(State(), r, p);
        RemoveLease(r, p);
        var _ := BroadcastRoomListPush();
      } else {
        NothingVacated(rooms, r, p);
      }
      var s := clients[f].(state := LoggedIn, resumeRoomId := 0, resumePeerId := 0, resumeToken := 0);
      SessionFacts(State(), f);
      WaitKeeps(State(), f, s);
      clients := clients[f := s];
      GiveUp(net.after);
    }

    /** onListRooms */
    method OnListRooms(now: int, net: Net) returns (msgs: seq<R.Msg>)
      requires Valid()
      modifies this`clients, this`rooms, this`freeRoomIds, this`freePeerIds, this`peerMap, publisher
      ensures Valid() && rooms == Cleaned(old(clients), old(rooms), now, net)
      ensures clients == Lose(CleanedClients(old(clients), old(rooms), now, net), net.after)
      ensures Lists(publisher.published, rooms)
      ensures |msgs| == |L.Pages(publisher.published)|
      ensures forall k :: 0 <= k < |msgs| ==>
        msgs[k] == R.Page(publisher.revision, k, |L.Pages(publisher.published)|, L.Pages(publisher.published)[k])
    {
      hide Inv, RoomsOk, L.Listable, Collected, HasLease, L.Pages, Cleaned, CleanedClients, Lose, Lists;
      CleanupExpiredLeases(now, net);
      CollectedLists(rooms, freeRoomIds, nextRoomId);
      msgs := publisher.ListRooms(Collected(rooms));
      GiveUp(net.after);
    }
  }

  const PROTOCOL_VERSION: nat := 9

  /** What the awaited resumption leads to: a seat on the lease if it is still valid, offline again if
   * the response is not accepted; else a session without a lease, and an expired lease goes. */
  ghost predicate ResumeOutcome(clients: Clients, rooms: Rooms, clients': Clients, rooms': Rooms, f: int, resume: Resume, now: int, net: Net)
    requires f in clients
  {
    var r, p, s := resume.roomId, resume.peerId, clients[f];
    if LeaseValid(rooms, resume, now) then
      var i := Find(rooms[r].leases, p);
      var back := clients[f := Returned(s, r, rooms[r].leases[i])];
      if s.alive && net.accepted then clients' == Lose(back, net.after) && rooms' == Online(rooms, r, i)
      else clients' == back[f := back[f].(alive := false)] && rooms' == Offline(Online(rooms, r, i), r, p, now)
    else
      && clients' == Lose(clients[f := Unresumed(s)], net.after)
      && rooms' == Vacated(rooms, r, p) && NoLease(rooms', p)
  }

  /** What the awaited resumption leads to, without the functions above. */
  lemma ResumeMeans(clients: Clients, rooms: Rooms, clients': Clients, rooms': Rooms, f: int, w: Resume, now: int, net: Net)
    requires f in clients && f in clients' && Awaited(clients[f], w) && Distinct(rooms)
    requires ResumeOutcome(clients, rooms, clients', rooms', f, w, now, net)
    ensures clients'[f].state == InRoom <==> Resumable(rooms, w, now)
    ensures Resumable(rooms, w, now) ==>
      && SitsIn(clients'[f], rooms, w)
      && if clients[f].alive && net.accepted then Timed(rooms, rooms', w.roomId, w.peerId, true, 0)
         else Timed(rooms, rooms', w.roomId, w.peerId, false, now + 120) && !clients'[f].alive
    ensures !Resumable(rooms, w, now) ==>
      && NoLease(rooms', w.peerId) && clients'[f].state == LoggedIn && clients'[f].peerId == w.peerId
      && clients'[f].resumeToken == 0
  {
    hide LeaseValid, Resumable, Lose, Online, Offline, NoLease, Timed, Distinct;
    ValidMeans(rooms, w, now);
    var s, r, p := clients[f], w.roomId, w.peerId;
    if LeaseValid(rooms, w, now) {
      FoundLease(rooms, w, now);
      var i := Find(rooms[r].leases, p);
      var t := Returned(s, r, rooms[r].leases[i]);
      assert InSlot(rooms, r, i) && SitsOn(t, r, rooms[r].leases[i]);
      LoseAt(clients[f := t], net.after, f);
      OnlineMeans(rooms, r, i, p);
      OnlineThenOffline(rooms, r, i, p, now);
    } else {
      LoseAt(clients[f := Unresumed(s)], net.after, f);
    }
  }

  lemma OnlineMeans(rooms: Rooms, r: nat, i: nat, p: nat)
    requires Distinct(rooms) && InSlot(rooms, r, i) && rooms[r].leases[i].peerId == p
    ensures Timed(rooms, Online(rooms, r, i), r, p, true, 0)
  {
    hide EnsureHost;
    var back := rooms[r].leases[i := rooms[r].leases[i].(online := true, expiresAt := 0)];
    HostOnly(rooms[r].(leases := back));
    var n := Online(rooms, r, i);
    assert n.Keys == rooms.Keys && n[r].leases == back;
    forall j | InSlot(rooms, r, j) && rooms[r].leases[j].peerId == p
      ensures j == i
    {
    }
  }

  lemma OnlineThenOffline(rooms: Rooms, r: nat, i: nat, p: nat, now: int)
    requires Distinct(rooms) && InSlot(rooms, r, i) && rooms[r].leases[i].peerId == p
    ensures Timed(rooms, Offline(Online(rooms, r, i), r, p, now), r, p, false, now + 120)
  {
    hide Online, Offline, Distinct;
    var n := Online(rooms, r, i);
    OnlineMeans(rooms, r, i, p);
    StillDistinct(rooms, n, r, p);
    OfflineMeans(n, r, p, now);
    var m := Offline(n, r, p, now);
    forall q, j | InSlot(rooms, q, j)
      ensures var l := rooms[q].leases[j];
        m[q].leases[j] == if q == r && l.peerId == p then l.(online := false, expiresAt := now + 120) else l
    {
      assert q in n.Keys;
      assert InSlot(n, q, j);
    }
    forall q | q in rooms
      ensures m[q].info == rooms[q].info && |m[q].leases| == |rooms[q].leases| && (q != r ==> m[q].hostPeerId == rooms[q].hostPeerId)
    {
      assert q in n.Keys;
    }
  }

  lemma StillDistinct(rooms: Rooms, rooms': Rooms, r: nat, p: nat)
    requires Distinct(rooms) && Timed(rooms, rooms', r, p, true, 0)
    ensures Distinct(rooms')
  {
    forall q, i | InSlot(rooms', q, i)
      ensures InSlot(rooms, q, i) && rooms'[q].leases[i].peerId == rooms[q].leases[i].peerId
    {
      assert q in rooms'.Keys;
      assert InSlot(rooms, q, i);
    }
  }

  /** The session whose lease is gone. */
  function Unresumed(s: Session): Session
  {
    s.(state := LoggedIn, resumeRoomId := 0, resumePeerId := 0, resumeToken := 0)
  }

  /** The session that has logged out. */
  function LoggedOff(s: Session): Session
  {
    s.(state := Closing, peerId := 0, roomId := 0, virtualIP := 0, pendingJoinRoomId := 0, resumeRoomId := 0, resumePeerId := 0,
      resumeToken := 0)
  }

  /** A session that logs out gives up the lease it holds or is about to resume. */
  function AfterLogout(rooms: Rooms, s: Session): (n: Rooms)
  {
    if s.roomId != 0 then Vacated(rooms, s.roomId, s.peerId)
    else if s.state == ResumePending then Vacated(rooms, s.resumeRoomId, s.peerId) else rooms
  }

  /** The session that has taken over the peer id of a lease, to resume it. */
  function Resuming(s: Session, name: seq<Byte>, r: nat, l: Lease): Session
  {
    s.(name := if l.name == [] then name else l.name, peerId := l.peerId, resumeRoomId := r, resumePeerId := l.peerId,
      resumeToken := l.token, state := ResumePending)
  }

  /** The session with a new identity. */
  function NewSession(s: Session, name: seq<Byte>, p: nat): Session
  {
    s.(name := name, peerId := p, resumeRoomId := 0, resumePeerId := 0, resumeToken := 0, state := LoggedIn)
  }

  /** Exactly the sessions with peer id p are gone. */
  ghost predicate OthersRemain(clients: Clients, clients': Clients, p: nat)
  {
    && (forall g :: g in clients' <==> g in clients && clients[g].peerId != p)
    && (forall g :: g in clients' ==> clients'[g] == clients[g])
  }

  predicate NameTaken(clients: Clients, f: int, name: seq<Byte>)
  {
    exists g :: g in clients && clients[g].peerId != 0 && clients[g].name == name && g != f
  }

  /** What a login leads to: a closing session for another protocol version, nothing for a bad or
   * taken name, the peer id of a resumable lease, or a peer id that nobody has. */
  ghost predicate LoginOutcome(clients: Clients, rooms: Rooms, clients': Clients, rooms': Rooms, f: int, v: Login, now: int, net: Net)
    requires f in clients && f in clients'
  {
    var s, t := clients[f], clients'[f];
    var alive := s.alive && net.accepted;
    if v.version != PROTOCOL_VERSION then clients' == clients[f := s.(state := Closing, alive := alive)] && rooms' == rooms
    else if !v.nameValid then clients' == Answered(clients, f, net) && rooms' == rooms
    else if v.resume.Some? && LeaseValid(rooms, v.resume.value, now) then
      var r, p := v.resume.value.roomId, v.resume.value.peerId;
      && t == Resuming(s, v.name, r, rooms[r].leases[Find(rooms[r].leases, p)]).(alive := alive)
      && rooms' == Offline(rooms, r, p, now) && OthersRemain(clients - {f}, clients' - {f}, p)
    else if NameTaken(clients, f, v.name) then clients' == Answered(clients, f, net) && rooms' == rooms
    else
      && t == NewSession(s, v.name, t.peerId).(alive := alive) && t.peerId != 0
      && NoSession(clients, t.peerId) && NoLease(rooms, t.peerId) && clients' == clients[f := t] && rooms' == rooms
  }

  /** A lease that may be resumed: right token, not expired. */
  predicate LeaseValid(rooms: Rooms, resume: Resume, now: int)
  {
    && resume.token != 0 && resume.roomId in rooms
    && var leases := rooms[resume.roomId].leases;
      var i := Find(leases, resume.peerId);
      i < |leases| && leases[i].token == resume.token && (leases[i].online || leases[i].expiresAt <= 0 || now <= leases[i].expiresAt)
  }

  lemma NoLogin(login: Option<Login>, rooms: Rooms, now: int)
    requires login.None?
    ensures !MayResume(login, rooms, now)
  {
  }

  /** What a login leads to, without the functions above. */
  lemma LoginMeans(clients: Clients, rooms: Rooms, clients': Clients, rooms': Rooms, f: int, v: Login, now: int, net: Net)
    requires f in clients && f in clients' && clients[f].state == AwaitLogin && Distinct(rooms)
    requires LoginOutcome(clients, rooms, clients', rooms', f, v, now, net)
    ensures clients'[f].state == ResumePending <==> MayResume(Some(v), rooms, now)
    ensures clients'[f].alive == (clients[f].alive && net.accepted)
    ensures !MayResume(Some(v), rooms, now) ==> rooms' == rooms && clients' == clients[f := clients'[f]]
    ensures MayResume(Some(v), rooms, now) ==>
      var w := v.resume.value;
      && Holds(clients'[f], w) && NamedAfter(clients'[f], v.name, rooms, w)
      && OfflineUntil(rooms, rooms', w.roomId, w.peerId, now + 120)
      && (forall g :: g != f ==> (g in clients' <==> g in clients && clients[g].peerId != w.peerId))
      && (forall g :: g != f && g in clients' ==> clients'[g] == clients[g])
    ensures clients'[f].state == LoggedIn <==>
      v.version == 9 && v.nameValid && !MayResume(Some(v), rooms, now) && !NameInUse(clients, f, v.name)
    ensures clients'[f].state == LoggedIn ==>
      && clients'[f].name == v.name && clients'[f].peerId != 0
      && NoSession(clients, clients'[f].peerId) && NoLease(rooms, clients'[f].peerId)
  {
    hide LeaseValid, Resumable, OfflineUntil, Offline, NoSession, NoLease, Distinct, OthersRemain;
    if v.resume.Some? {
      var w := v.resume.value;
      ValidMeans(rooms, w, now);
      OfflineMeans(rooms, w.roomId, w.peerId, now);
      if MayResume(Some(v), rooms, now) {
        FoundLease(rooms, w, now);
        assert InSlot(rooms, w.roomId, Find(rooms[w.roomId].leases, w.peerId));
        ExceptOne(clients, clients', f, w.peerId);
      }
    }
  }

  lemma FoundLease(rooms: Rooms, w: Resume, now: int)
    requires LeaseValid(rooms, w, now)
    ensures w.roomId in rooms && var i := Find(rooms[w.roomId].leases, w.peerId);
      i < |rooms[w.roomId].leases| && rooms[w.roomId].leases[i].peerId == w.peerId && rooms[w.roomId].leases[i].token == w.token
  {
  }

  lemma ExceptOne(clients: Clients, clients': Clients, f: int, p: nat)
    ensures OthersRemain(clients - {f}, clients' - {f}, p) ==>
      && (forall g :: g != f ==> (g in clients' <==> g in clients && clients[g].peerId != p))
      && (forall g :: g != f && g in clients' ==> clients'[g] == clients[g])
  {
    forall g | g != f && OthersRemain(clients - {f}, clients' - {f}, p)
      ensures g in clients' <==> g in clients && clients[g].peerId != p
      ensures g in clients' ==> clients'[g] == clients[g]
    {
      assert (g in clients' - {f} <==> g in clients') && (g in clients - {f} <==> g in clients);
    }
  }

  lemma AnonymousLogin(s: Session)
    requires SessionOk(s) && s.state == AwaitLogin
    ensures s.peerId == 0 && s.roomId == 0 && s.serverAuthOk && s.secureEnabled
  {
  }

  lemma MarkedLease(a: Rooms, b: Rooms, r: nat, i: nat)
    requires Marked(a, b) && InSlot(a, r, i)
    ensures InSlot(b, r, i) && SameLease(a[r].leases[i], b[r].leases[i])
  {
    assert r in a.Keys && r in b.Keys;
  }

  /** A session without identity takes over the peer id of a lease, to resume it. */
  lemma PendingKeeps(c: Core, f: int, s: Session, r: nat, i: nat)
    requires Inv(c) && f in c.clients && InSlot(c.rooms, r, i) && c.clients[f].state == AwaitLogin
    requires c.rooms[r].leases[i].peerId == s.peerId && NoSession(c.clients, s.peerId)
    requires s.peerId in c.peerMap && c.peerMap[s.peerId] == f && 0 < r
    requires s == c.clients[f].(name := s.name, peerId := s.peerId, resumeRoomId := r, resumePeerId := s.peerId,
      resumeToken := c.rooms[r].leases[i].token, state := ResumePending)
    ensures Inv(c.(clients := c.clients[f := s]))
  {
    hide HasLease;
    SessionFacts(c, f);
    LeaseFacts(c, r, i);
    SessionKeeps(c, f, s);
  }

  /** A session without identity takes a fresh peer id. */
  lemma FreshKeeps(c: Core, f: int, s: Session)
    requires Inv(c) && f in c.clients && c.clients[f].state == AwaitLogin
    requires 0 < s.peerId < c.next && s.peerId !in c.free && NoLease(c.rooms, s.peerId)
    requires s.peerId in c.peerMap && c.peerMap[s.peerId] == f
    requires s == c.clients[f].(name := s.name, peerId := s.peerId, resumeRoomId := 0, resumePeerId := 0, resumeToken := 0,
      state := LoggedIn, alive := s.alive)
    ensures Inv(c.(clients := c.clients[f := s]))
  {
    hide HasLease;
    SessionFacts(c, f);
    SessionKeeps(c, f, s);
  }

  /** A session without a lease may move between the states that have none. */
  lemma WaitKeeps(c: Core, f: int, s: Session)
    requires Inv(c) && f in c.clients && NoLease(c.rooms, s.peerId) && HasIdentity(c.clients[f].state)
    requires c.clients[f].state != InRoom && (s.state == LoggedIn || s.state == AwaitRoomPassword)
    requires s == c.clients[f].(state := s.state, pendingJoinRoomId := s.pendingJoinRoomId,
      resumeRoomId := s.resumeRoomId, resumePeerId := s.resumePeerId, resumeToken := s.resumeToken)
    ensures Inv(c.(clients := c.clients[f := s]))
  {
    hide HasLease;
    SessionFacts(c, f);
    SessionKeeps(c, f, s);
  }

  lemma NoLeaseOf2(c: Core, f: int)
    requires Inv(c) && f in c.clients && (c.clients[f].state == LoggedIn || c.clients[f].state == AwaitRoomPassword)
    ensures c.clients[f].peerId != 0 && NoLease(c.rooms, c.clients[f].peerId)
  {
    SessionFacts(c, f);
    NoLeaseOf(c, f);
  }

  lemma RoomIdPositive(rooms: Rooms, free: set<nat>, next: nat, r: nat)
    requires RoomsOk(rooms, free, next) && r in rooms
    ensures 0 < r
  {
  }

  /** A pending session's peer id has no other session, in particular none in a room. */
  lemma PendingAlone(c: Core, f: int)
    requires Inv(c) && f in c.clients && c.clients[f].state == ResumePending
    ensures forall g :: g in c.clients && c.clients[g].alive && c.clients[g].state == InRoom ==> c.clients[g].peerId != c.clients[f].peerId
  {
    SessionFacts(c, f);
    forall g | g in c.clients && c.clients[g].state == InRoom
      ensures c.clients[g].peerId != c.clients[f].peerId
    {
      if c.clients[g].peerId == c.clients[f].peerId {
        OneOwner(c, f, g);
      }
    }
  }

  /** The pending session sits down on its lease. */
  lemma ResumedKeeps(c: Core, f: int, s: Session, r: nat, i: nat)
    requires Inv(c) && f in c.clients && InSlot(c.rooms, r, i) && c.clients[f].state == ResumePending && 0 < r
    requires c.rooms[r].leases[i].peerId == s.peerId
    requires s == c.clients[f].(roomId := r, virtualIP := c.rooms[r].leases[i].virtualIP, name := s.name, resumeRoomId := r,
      resumePeerId := s.peerId, resumeToken := c.rooms[r].leases[i].token, state := InRoom)
    ensures Inv(c.(clients := c.clients[f := s]))
  {
    SessionFacts(c, f);
    assert HasLease(c.rooms, r, s.peerId);
    hide HasLease;
    SessionKeeps(c, f, s);
  }

  /** What the response to a join leads to: once it is accepted the session is a member; otherwise its
   * new lease goes again, and the session is lost. */
  ghost predicate Completed(clients: Clients, rooms: Rooms, clients': Clients, rooms': Rooms, f: int, r: nat, token: Token, net: Net)
    requires f in clients && r in rooms
  {
    var s := clients[f];
    if net.accepted && s.alive then
      && clients' == Lose(clients[f := Member(s, r, NewLease(rooms[r].leases, s, token))], net.after)
      && rooms' == Joined(rooms, r, s, token)
    else
      && f in clients' && clients' == clients[f := OutOfRoom(s).(alive := false)]
      && rooms' == Vacated(Joined(rooms, r, s, token), r, s.peerId)
  }

  /** The response of onCreateRoom or completeJoin has been accepted and published, or the membership
   * is rolled back. */
  ghost predicate Finished(clients: Clients, rooms: Rooms, clients': Clients, rooms': Rooms, f: int, net: Net)
    requires f in clients
  {
    if net.accepted && clients[f].alive then clients' == Lose(clients, net.after) && rooms' == rooms
    else
      && clients' == clients[f := OutOfRoom(clients[f]).(alive := false)]
      && rooms' == Vacated(rooms, clients[f].roomId, clients[f].peerId)
  }

  /** What a completed join adds. */
  lemma CompletedMeans(clients: Clients, rooms: Rooms, clients': Clients, rooms': Rooms, f: int, r: nat, token: Token, net: Net)
    requires f in clients && r in rooms && |rooms[r].leases| <= MAX_PLAYERS && net.accepted && clients[f].alive
    requires Completed(clients, rooms, clients', rooms', f, r, token, net)
    ensures f in clients' && OneMore(rooms, rooms', r, clients[f], clients'[f], token)
  {
    hide Joined, Lose, Member, NewLease, OneMore;
    var s := clients[f];
    var t := Member(s, r, NewLease(rooms[r].leases, s, token));
    LoseAt(clients[f := t], net.after, f);
    JoinedMore(rooms, r, s, token);
    StillOneMore(rooms, rooms', r, s, t, clients'[f], token);
  }

  lemma StillOneMore(rooms: Rooms, rooms': Rooms, r: nat, s: Session, t: Session, u: Session, token: Token)
    requires r in rooms && OneMore(rooms, rooms', r, s, t, token) && u == t.(alive := u.alive)
    ensures OneMore(rooms, rooms', r, s, u, token)
  {
  }

  lemma MemberAt(s: Session, r: nat, l: Lease)
    ensures var t := Member(s, r, l);
      t.state == InRoom && t.roomId == r && t.peerId == s.peerId && t.alive == s.alive && OutOfRoom(t) == OutOfRoom(s)
  {
  }

  lemma IsCompleted(clients: Clients, rooms: Rooms, clients': Clients, rooms': Rooms, f: int, r: nat, token: Token, net: Net)
    requires f in clients && r in rooms
    requires var s := clients[f];
      Finished(clients[f := Member(s, r, NewLease(rooms[r].leases, s, token))], Joined(rooms, r, s, token), clients', rooms', f, net)
    ensures Completed(clients, rooms, clients', rooms', f, r, token, net)
    ensures f in clients' && (net.accepted && clients[f].alive ==> clients'[f].roomId == r)
  {
    hide Joined, Vacated, NewLease;
    var s := clients[f];
    MemberAt(s, r, NewLease(rooms[r].leases, s, token));
  }

  /** Sessions that differ in their connection only. */
  lemma SameState(s: Session, t: Session)
    requires t.(alive := s.alive) == s
    ensures t.state == s.state && t.peerId == s.peerId && t.pendingJoinRoomId == s.pendingJoinRoomId
  {
  }

  /** There is room r, and a place in it. */
  predicate HasPlace(rooms: Rooms, r: nat)
  {
    r in rooms && |rooms[r].leases| < rooms[r].info.maxPlayers
  }

  /** What a request to join room r leads to, from the sessions and rooms that lease expiry left: the
   * session is in the room, or has to prove a password first, or the room list is as it was. It is in
   * the room exactly when there is a place, no password, a token, and the response is accepted. */
  ghost predicate JoinOutcome(clients: Clients, rooms: Rooms, clients': Clients, rooms': Rooms, f: int, r: nat, token: Token, net: Net, asked: bool)
    requires f in clients && f in clients'
  {
    && (clients'[f].state == InRoom <==>
          HasPlace(rooms, r) && rooms[r].info.password == 0 && token != 0 && net.accepted && clients[f].alive)
    && (clients'[f].state == AwaitRoomPassword <==> HasPlace(rooms, r) && rooms[r].info.password != 0 && asked)
    && (clients'[f].state != InRoom ==> Collected(rooms') == Collected(rooms))
    && if HasPlace(rooms, r) && rooms[r].info.password == 0 && token != 0 then Completed(clients, rooms, clients', rooms', f, r, token, net)
       else
         var s := if HasPlace(rooms, r) && rooms[r].info.password != 0 && asked
                  then clients[f].(pendingJoinRoomId := r, state := AwaitRoomPassword) else clients[f];
         clients' == Answered(clients[f := s], f, net) && rooms' == rooms
  }

  /** What an answer to the password challenge leads to. */
  ghost predicate AnswerOutcome(clients: Clients, rooms: Rooms, clients': Clients, rooms': Rooms, f: int, proof: bool, token: Token, net: Net)
    requires f in clients && f in clients'
  {
    var r := clients[f].pendingJoinRoomId;
    var free := clients[f := clients[f].(pendingJoinRoomId := 0, state := LoggedIn)];
    && (clients'[f].state == InRoom <==> HasPlace(rooms, r) && proof && token != 0 && net.accepted && clients[f].alive)
    && (clients'[f].state != InRoom ==> clients'[f].state == LoggedIn && Collected(rooms') == Collected(rooms))
    && if HasPlace(rooms, r) && proof && token != 0 then Completed(free, rooms, clients', rooms', f, r, token, net)
       else clients' == Answered(free, f, net) && rooms' == rooms
  }

  /** What a request to join leads to, without the functions above. */
  lemma JoinMeans(clients: Clients, rooms: Rooms, clients': Clients, rooms': Rooms, f: int, r: nat, token: Token, net: Net, asked: bool)
    requires f in clients && f in clients' && clients[f].state == LoggedIn
    requires JoinOutcome(clients, rooms, clients', rooms', f, r, token, net, asked)
    ensures var t := clients'[f];
      && (t.state == InRoom ==> r in rooms && rooms[r].info.password == 0 && token != 0 && net.accepted && t.roomId == r)
      && (t.state == AwaitRoomPassword ==> r in rooms && rooms[r].info.password != 0 && asked && t.pendingJoinRoomId == r)
      && (t.state == InRoom || t.state == AwaitRoomPassword || t.state == LoggedIn)
      && (t.state == LoggedIn && r in rooms' && |rooms'[r].leases| < rooms'[r].info.maxPlayers ==>
            if rooms'[r].info.password == 0 then token == 0 || !t.alive else !asked)
  {
    hide Collected, Joined, NewLease, Vacated, Lose;
    if HasPlace(rooms, r) && rooms[r].info.password == 0 && token != 0 {
      var s := clients[f];
      var l := NewLease(rooms[r].leases, s, token);
      MemberAt(s, r, l);
      LoseAt(clients[f := Member(s, r, l)], net.after, f);
      RolledInfo(rooms, r, s, token);
    }
  }

  lemma RolledInfo(rooms: Rooms, r: nat, s: Session, token: Token)
    requires r in rooms
    ensures var n := Vacated(Joined(rooms, r, s, token), r, s.peerId); r in n ==> n[r].info == rooms[r].info
  {
    hide AllocateIP, Without;
  }

  lemma AnswerMeans(clients: Clients, rooms: Rooms, clients': Clients, rooms': Rooms, f: int, proof: bool, token: Token, net: Net)
    requires f in clients && f in clients' && clients[f].state == AwaitRoomPassword && clients[f].roomId == 0
    requires AnswerOutcome(clients, rooms, clients', rooms', f, proof, token, net)
    ensures var t, r := clients'[f], clients[f].pendingJoinRoomId;
      && (t.state == InRoom ==> r in rooms && proof && token != 0 && net.accepted && t.roomId == r)
      && (t.state != InRoom ==> t.state == LoggedIn && t.roomId == 0)
      && (t.state == LoggedIn && r in rooms' && |rooms'[r].leases| < rooms'[r].info.maxPlayers && proof ==> token == 0 || !t.alive)
  {
    hide Collected, Joined, NewLease, Vacated, Lose;
    var r := clients[f].pendingJoinRoomId;
    if HasPlace(rooms, r) && proof && token != 0 {
      var s := clients[f].(pendingJoinRoomId := 0, state := LoggedIn);
      var l := NewLease(rooms[r].leases, s, token);
      MemberAt(s, r, l);
      LoseAt(clients[f := s][f := Member(s, r, l)], net.after, f);
    }
  }

  lemma NewLeasePeer(leases: seq<Lease>, s: Session, token: Token)
    ensures NewLease(leases, s, token).peerId == s.peerId
  {
  }

  lemma JoinFacts(c: Core, f: int, r: nat, free: set<nat>, next: nat)
    requires Inv(c) && f in c.clients && c.clients[f].state == LoggedIn && RoomsOk(c.rooms, free, next) && r in c.rooms
    ensures c.clients[f].peerId != 0 && NoLease(c.rooms, c.clients[f].peerId) && 0 < r
    ensures Find(c.rooms[r].leases, c.clients[f].peerId) == |c.rooms[r].leases| <= c.rooms[r].info.maxPlayers <= MAX_PLAYERS
  {
    hide RoomOk;
    NoLeaseOf2(c, f);
    RoomSize(c.rooms[r]);
    var i := Find(c.rooms[r].leases, c.clients[f].peerId);
    assert i < |c.rooms[r].leases| ==> InSlot(c.rooms, r, i);
  }

  lemma RoomSize(room: Room)
    requires RoomOk(room)
    ensures |room.leases| <= room.info.maxPlayers <= MAX_PLAYERS
  {
  }

  /** Joining keeps the invariants, and takes one lease. */
  lemma JoinKeeps(c: Core, f: int, r: nat, token: Token, free: set<nat>, next: nat)
    requires Inv(c) && f in c.clients && c.clients[f].state == LoggedIn && RoomsOk(c.rooms, free, next) && r in c.rooms && token != 0
    requires |c.rooms[r].leases| < c.rooms[r].info.maxPlayers
    ensures var l := NewLease(c.rooms[r].leases, c.clients[f], token);
      var rooms' := Joined(c.rooms, r, c.clients[f], token);
      && Inv(c.(rooms := rooms', clients := c.clients[f := Member(c.clients[f], r, l)]))
      && RoomsOk(rooms', free, next) && Given(c.rooms, rooms', r, l) && l.virtualIP != 0
  {
    hide Inv, Given, HasLease, AllocateIP, SessionOk, RoomsOk, EnsureHost;
    JoinFacts(c, f, r, free, next);
    SessionFacts(c, f);
    var room := c.rooms[r];
    AddressLeft(room.leases);
    var l := NewLease(room.leases, c.clients[f], token);
    var seated := EnsureHost(room.(leases := room.leases + [l]));
    IsGiven(c.rooms, r, seated, l);
    JoinedOk(c.clients[f], Member(c.clients[f], r, l));
    SeatKeeps(c, c.rooms[r := seated], f, r, l, Member(c.clients[f], r, l));
    JoinedRooms(c.rooms, r, seated, l, free, next);
  }

  /** What joining changes of the room list. */
  lemma JoinedMeans(rooms: Rooms, r: nat, s: Session, token: Token)
    requires r in rooms
    ensures var n := Joined(rooms, r, s, token);
      && n.Keys == rooms.Keys && (forall q :: q in n ==> n[q].info == rooms[q].info)
      && Given(rooms, n, r, NewLease(rooms[r].leases, s, token))
  {
    hide AllocateIP;
  }

  lemma JoinedOk(s: Session, t: Session)
    requires SessionOk(s) && s.state == LoggedIn
    requires t == s.(virtualIP := t.virtualIP, roomId := t.roomId, resumeRoomId := t.resumeRoomId, resumePeerId := t.resumePeerId,
      resumeToken := t.resumeToken, state := InRoom) && t.roomId != 0
    ensures SessionOk(t)
  {
  }

  lemma IsGiven(rooms: Rooms, r: nat, seated: Room, l: Lease)
    requires r in rooms && seated.leases == rooms[r].leases + [l]
    ensures Given(rooms, rooms[r := seated], r, l)
  {
  }

  lemma JoinedRooms(rooms: Rooms, r: nat, seated: Room, l: Lease, free: set<nat>, next: nat)
    requires RoomsOk(rooms, free, next) && r in rooms && seated.leases == rooms[r].leases + [l] && seated.info == rooms[r].info
    requires |rooms[r].leases| < rooms[r].info.maxPlayers
    requires SUBNET + FIRST_SUFFIX <= l.virtualIP <= SUBNET + LAST_SUFFIX && !HasIP(rooms[r].leases, l.virtualIP)
    ensures RoomsOk(rooms[r := seated], free, next)
  {
    hide RoomOk, HasIP;
    SeatedOk(rooms[r], seated, l);
    assert rooms[r := seated].Keys == rooms.Keys;
    assert |rooms[r := seated].Keys| == |rooms[r := seated]| && |rooms.Keys| == |rooms|;
  }

  lemma SeatedOk(room: Room, seated: Room, l: Lease)
    requires RoomOk(room) && seated.leases == room.leases + [l] && seated.info == room.info && |room.leases| < room.info.maxPlayers
    requires SUBNET + FIRST_SUFFIX <= l.virtualIP <= SUBNET + LAST_SUFFIX && !HasIP(room.leases, l.virtualIP)
    ensures RoomOk(seated)
  {
    assert forall i :: 0 <= i < |room.leases| ==> seated.leases[i] == room.leases[i] && seated.leases[i].virtualIP != l.virtualIP;
  }

  lemma NewRoomOk(rooms: Rooms, r: nat, room: Room, free: set<nat>, next: nat)
    requires RoomsOk(rooms, free, next) && r !in rooms && 0 < r < next && r !in free && |rooms| < L.MAX_ROOMS
    requires RoomOk(room)
    ensures RoomsOk(rooms[r := room], free, next)
  {
    hide RoomOk;
  }

  lemma GivenOccupied(rooms: Rooms, rooms': Rooms, r: nat, l: Lease, start: Rooms)
    requires Given(rooms, rooms', r, l) && Occupied(start) && forall q :: q in rooms && q != r ==> q in start && rooms[q] == start[q]
    ensures Occupied(rooms')
  {
    forall q | q in rooms'
      ensures rooms'[q].leases != []
    {
      assert q in rooms'.Keys;
    }
  }

  /** Finding a lease that was given last. */
  lemma {:induction false} FindLast(leases: seq<Lease>, l: Lease)
    requires Find(leases, l.peerId) == |leases|
    ensures Find(leases + [l], l.peerId) == |leases|
  {
    if leases != [] {
      assert (leases + [l])[1..] == leases[1..] + [l];
      FindLast(leases[1..], l);
    }
  }

  /** A rolled-back join leaves the room list as it was. */
  lemma JoinedAndGone(start: Rooms, rooms: Rooms, r: nat, l: Lease)
    requires r in start && Given(start, rooms, r, l) && NoLease(start, l.peerId) && start[r].leases != []
    requires forall q :: q in rooms ==> q in start && rooms[q].info == start[q].info
    ensures Collected(Vacated(rooms, r, l.peerId)) == Collected(start)
  {
    assert forall j :: 0 <= j < |start[r].leases| ==> InSlot(start, r, j);
    FindLast(start[r].leases, l);
    assert r in rooms.Keys;
    assert Without(rooms[r].leases, |start[r].leases|) == start[r].leases;
    var n := WithoutLease(rooms, r, l.peerId);
    assert n[r].leases == start[r].leases;
    forall q | q in start
      ensures q in n && |n[q].leases| == |start[q].leases| && n[q].info == start[q].info
    {
      assert q in rooms.Keys;
    }
    assert n.Keys == start.Keys;
  }

  /** A rolled-back creation leaves the room list as it was. */
  lemma CreatedAndGone(start: Rooms, joined: Rooms, rooms: Rooms, r: nat, room: Room, l: Lease)
    requires r in joined && start == joined - {r} && room == joined[r] && room.leases == [] && Given(joined, rooms, r, l)
    requires forall q :: q in rooms ==> q in joined && rooms[q].info == joined[q].info
    ensures Collected(Vacated(rooms, r, l.peerId)) == Collected(start)
  {
    assert r in rooms.Keys;
    assert rooms[r].leases == [l];
    assert Without(rooms[r].leases, 0) == [];
    var n := WithoutLease(rooms, r, l.peerId);
    assert n[r].leases == [];
    forall q | q in start
      ensures q in n - {r} && |(n - {r})[q].leases| == |start[q].leases| && (n - {r})[q].info == start[q].info
    {
      assert q in rooms.Keys;
    }
    assert (n - {r}).Keys == start.Keys;
  }

  function Blank(): (s: Session)
  {
    Session(0, 0, 0, [], true, AwaitHello, false, false, 0, 0, 0, 0)
  }

  lemma FirstLease(clients: Clients, r: nat, leases: seq<Lease>, now: int, told: nat -> set<int>)
    ensures FromLease(clients, r, leases, 0, now, told) == Survivors(clients, r, leases, now, told)
  {
    hide Survivors;
    assert leases[0..] == leases && leases[..0] + Survivors(clients, r, leases, now, told).0 == Survivors(clients, r, leases, now, told).0;
  }

  lemma LastLease(clients: Clients, r: nat, leases: seq<Lease>, now: int, told: nat -> set<int>)
    ensures FromLease(clients, r, leases, |leases|, now, told) == (leases, clients)
  {
    NoneLeft(clients, r, leases, now, told);
  }

  lemma RefreshedPeer(l: Lease, live: bool, now: int)
    ensures Refreshed(l, live, now).peerId == l.peerId
  {
  }

  /** Losing connections makes nobody alive. */
  lemma StillNobody(clients: Clients, dead: set<int>, p: nat)
    requires forall f :: f in clients && clients[f].alive && clients[f].state == InRoom ==> clients[f].peerId != p
    ensures var n := Lose(clients, dead); forall f :: f in n && n[f].alive && n[f].state == InRoom ==> n[f].peerId != p
  {
  }

  lemma SameSession(clients: Clients, f: int)
    requires f in clients
    ensures clients[f := clients[f].(alive := clients[f].alive && true)] == clients
  {
  }

  /** The same sessions, except that some may have lost their connection or were lost before. */
  ghost predicate SameButAlive(a: Clients, b: Clients)
  {
    b.Keys == a.Keys && forall f :: f in a ==> b[f].(alive := a[f].alive) == a[f]
  }

  lemma LoseSame(a: Clients, b: Clients, dead: set<int>)
    requires SameButAlive(a, b)
    ensures SameButAlive(a, Lose(b, dead))
  {
  }

  lemma {:induction false} SurvivorsSame(a: Clients, b: Clients, r: nat, leases: seq<Lease>, now: int, told: nat -> set<int>)
    requires SameButAlive(a, b)
    ensures SameButAlive(a, Survivors(b, r, leases, now, told).1)
    decreases |leases|
  {
    hide SameButAlive, Lose, Expired, Live;
    if leases != [] {
      var l := Refreshed(leases[0], Live(b, r, leases[0].peerId), now);
      if Expired(l, now) {
        LoseSame(a, b, told(l.peerId));
        SurvivorsSame(a, Lose(b, told(l.peerId)), r, leases[1..], now, told);
      } else {
        SurvivorsSame(a, b, r, leases[1..], now, told);
      }
    }
  }

  lemma {:induction false} SweepSame(a: Clients, b: Clients, rooms: Rooms, left: set<nat>, now: int, told: nat -> set<int>)
    requires SameButAlive(a, b) && left <= rooms.Keys
    ensures SameButAlive(a, Sweep(b, rooms, left, now, told).0)
    decreases |left|
  {
    hide SameButAlive, Survivors, EnsureHost;
    if left != {} {
      var r := L.MinKey(left);
      SurvivorsSame(a, b, r, rooms[r].leases, now, told);
      var one := Swept(b, r, rooms[r], now, told);
      SweepSame(a, one.1, rooms[r := one.0], left - {r}, now, told);
    }
  }

  lemma {:induction false} SweepInfo(clients: Clients, rooms: Rooms, left: set<nat>, now: int, told: nat -> set<int>)
    requires left <= rooms.Keys
    ensures var n := Sweep(clients, rooms, left, now, told).1; forall r :: r in rooms ==> r in n && n[r].info == rooms[r].info
    decreases |left|
  {
    hide Survivors, EnsureHost;
    if left != {} {
      var r := L.MinKey(left);
      var one := Swept(clients, r, rooms[r], now, told);
      HostOnly(rooms[r].(leases := Survivors(clients, r, rooms[r].leases, now, told).0));
      SweepInfo(one.1, rooms[r := one.0], left - {r}, now, told);
    }
  }

  /** Lease expiry makes no room and changes no settings. */
  lemma CleanedInfo(clients: Clients, rooms: Rooms, now: int, net: Net, r: nat)
    ensures r in Cleaned(clients, rooms, now, net) ==> r in rooms && Cleaned(clients, rooms, now, net)[r].info == rooms[r].info
  {
    hide Sweep;
    SweepInfo(clients, rooms, rooms.Keys, now, net.told);
  }

  /** Lease expiry changes nothing of a session but its connection. */
  lemma CleanedAt(clients: Clients, rooms: Rooms, now: int, net: Net, f: int)
    requires f in clients
    ensures f in CleanedClients(clients, rooms, now, net)
    ensures CleanedClients(clients, rooms, now, net)[f].(alive := clients[f].alive) == clients[f]
  {
    hide Sweep, Collected, Cleaned, Lose;
    SweepSame(clients, clients, rooms, rooms.Keys, now, net.told);
    LoseSame(clients, Sweep(clients, rooms, rooms.Keys, now, net.told).0, net.pushed);
  }

  lemma OwnerGone(clients: Clients, g: int, p: nat)
    requires g in clients && clients[g].peerId == p && NoSession(clients - {g}, p)
    ensures OthersRemain(clients, clients - {g}, p)
  {
    assert forall x :: x in clients && x != g ==> x in clients - {g};
  }

  lemma TakenOverLease(a: Rooms, b: Rooms, r: nat, i: nat, now: int)
    requires InSlot(a, r, i) && Marked(a, b) && (b == a || b == Offline(a, r, a[r].leases[i].peerId, now))
    ensures InSlot(b, r, i) && SameLease(a[r].leases[i], b[r].leases[i]) && b[r].leases[i].name == a[r].leases[i].name
  {
    MarkedLease(a, b, r, i);
  }

  lemma OthersWithout(all: Clients, clients: Clients, f: int, p: nat)
    requires f in all && all[f].peerId != p && f in clients
    requires forall g :: g != f ==> (g in clients <==> g in all && all[g].peerId != p) && (g in clients ==> clients[g] == all[g])
    ensures OthersRemain(all - {f}, clients - {f}, p)
  {
  }

  lemma LeaseFacts(c: Core, r: nat, i: nat)
    requires Inv(c) && InSlot(c.rooms, r, i)
    ensures LeaseOk(c.rooms[r].leases[i], c.free, c.next)
  {
  }

  /** If the lease's peer has no live session in the room, it has none in any room. */
  lemma LiveElsewhere(c: Core, r: nat, i: nat, live: Option<int>)
    requires Inv(c) && InSlot(c.rooms, r, i)
    requires live.None? ==> forall f :: f in c.clients && c.clients[f].peerId == c.rooms[r].leases[i].peerId ==> !c.clients[f].alive
    requires live.Some? ==> live.value in c.clients && c.clients[live.value].peerId == c.rooms[r].leases[i].peerId
    requires live.Some? ==> !(c.clients[live.value].roomId == r && c.clients[live.value].state == InRoom)
    ensures forall f :: f in c.clients && c.clients[f].alive && c.clients[f].state == InRoom ==> c.clients[f].peerId != c.rooms[r].leases[i].peerId
    ensures !Live(c.clients, r, c.rooms[r].leases[i].peerId)
  {
    LeaseFacts(c, r, i);
    forall f | f in c.clients && c.clients[f].alive && c.clients[f].state == InRoom
      ensures c.clients[f].peerId != c.rooms[r].leases[i].peerId
    {
      assert c.clients[f].peerId == c.rooms[r].leases[i].peerId ==> Matches(c.clients[f], r, c.rooms[r].leases[i]);
      if live.Some? && c.clients[f].peerId == c.rooms[r].leases[i].peerId {
        OneOwner(c, f, live.value);
      }
    }
  }

  lemma IsLive(clients: Clients, r: nat, f: int)
    requires f in clients && clients[f].alive && clients[f].state == InRoom && clients[f].roomId == r
    ensures Live(clients, r, clients[f].peerId)
  {
  }

  lemma SameLeases(rooms: Rooms, r: nat, i: nat)
    requires InSlot(rooms, r, i)
    ensures WithLeases(rooms, r, rooms[r].leases[i := rooms[r].leases[i]]) == rooms
  {
    assert rooms[r].leases[i := rooms[r].leases[i]] == rooms[r].leases;
  }

  /** Removing a lease that has just been refreshed is removing it. */
  lemma WithoutRefreshed(rooms: Rooms, r: nat, i: nat, l: Lease)
    requires InSlot(rooms, r, i)
    ensures var leases := rooms[r].leases;
      WithLeases(WithLeases(rooms, r, leases[i := l]), r, Without(leases[i := l], i)) == WithLeases(rooms, r, Without(leases, i))
  {
    var leases := rooms[r].leases;
    assert Without(leases[i := l], i) == Without(leases, i);
  }

  /** The owner of a lease that is taken over can only leave that lease offline. */
  lemma OwnerLeaves(c: Core, g: int, r: nat, i: nat, now: int)
    requires Inv(c) && g in c.clients && InSlot(c.rooms, r, i) && c.rooms[r].leases[i].peerId == c.clients[g].peerId != 0
    ensures Left(c.rooms, c.clients[g], Takeover, now) == Offline(c.rooms, r, c.clients[g].peerId, now)
  {
    hide Offline, HasLease, Distinct, LeasesOk, Seated;
    SessionFacts(c, g);
    assert Matches(c.clients[g], r, c.rooms[r].leases[i]);
  }

  lemma NotOther(clients: Clients, f: int, p: nat, g: int)
    requires NoSession(clients - {f}, p) && g in clients && clients[g].peerId == p
    ensures g == f
  {
    assert g in clients - {f} || g == f;
  }

  /** Without the lease there is nothing to vacate. */
  lemma NothingVacated(rooms: Rooms, r: nat, p: nat)
    requires Occupied(rooms) && (r in rooms ==> Find(rooms[r].leases, p) == |rooms[r].leases|)
    ensures Vacated(rooms, r, p) == rooms
  {
  }

  lemma MarkedShape(a: Rooms, b: Rooms)
    requires Marked(a, b)
    ensures b.Keys == a.Keys && forall r :: r in b ==> r in a && |b[r].leases| == |a[r].leases|
  {
    assert forall r :: r in b ==> r in a.Keys;
  }

  /** If a pending session's room has its lease, the token matches; otherwise it has no lease. */
  lemma PendingLease(c: Core, f: int)
    requires Inv(c) && f in c.clients && c.clients[f].state == ResumePending
    ensures var s := c.clients[f];
      if s.resumeRoomId in c.rooms && Find(c.rooms[s.resumeRoomId].leases, s.peerId) < |c.rooms[s.resumeRoomId].leases|
      then c.rooms[s.resumeRoomId].leases[Find(c.rooms[s.resumeRoomId].leases, s.peerId)].token == s.resumeToken
      else NoLease(c.rooms, s.peerId)
  {
    SessionFacts(c, f);
    LeaseRoom(c, f);
    var s := c.clients[f];
    if s.resumeRoomId in c.rooms {
      var i := Find(c.rooms[s.resumeRoomId].leases, s.peerId);
      if i < |c.rooms[s.resumeRoomId].leases| {
        assert InSlot(c.rooms, s.resumeRoomId, i);
      }
    }
  }

  lemma SeatedHas(c: Core, f: int)
    requires Inv(c) && f in c.clients && c.clients[f].alive && c.clients[f].roomId != 0
    ensures HasLease(c.rooms, c.clients[f].roomId, c.clients[f].peerId)
  {
    hide HasLease;
    SessionFacts(c, f);
  }

  lemma NotFound(rooms: Rooms, r: nat, p: nat)
    requires NoLease(rooms, p)
    ensures r in rooms ==> Find(rooms[r].leases, p) == |rooms[r].leases|
  {
    if r in rooms {
      var i := Find(rooms[r].leases, p);
      assert i < |rooms[r].leases| ==> InSlot(rooms, r, i);
    }
  }

  lemma LoggedOffPeer(s: Session)
    ensures LoggedOff(s).peerId == 0
  {
  }

  lemma LoggedOut(c: Core, clients: Clients, f: int, s: Session)
    requires f in c.clients && clients == c.clients[f := s] && s.peerId == 0
    requires c.clients[f].peerId != 0 ==> NoSession(c.clients - {f}, c.clients[f].peerId)
    ensures c.clients[f].peerId != 0 ==> NoSession(clients, c.clients[f].peerId)
  {
    forall g | g in clients && c.clients[f].peerId != 0
      ensures clients[g].peerId != c.clients[f].peerId
    {
      if g != f {
        assert g in c.clients - {f};
      }
    }
  }

  lemma SessionFacts(c: Core, f: int)
    requires Inv(c) && f in c.clients
    ensures SessionOk(c.clients[f]) && Indexed(c.clients[f], f, c.peerMap, c.free, c.next) && c.clients[f].peerId < c.next
  {
  }

  lemma Owned(clients: Clients, f: int, p: nat)
    requires f in clients && clients[f].peerId == p
    ensures !NoSession(clients, p)
  {
  }

  /** Nobody else has the peer id of a session. */
  lemma OnlyOwner(c: Core, f: int)
    requires Inv(c) && f in c.clients
    ensures c.clients[f].peerId != 0 ==> NoSession(c.clients - {f}, c.clients[f].peerId)
  {
    forall g | g in c.clients - {f} && c.clients[f].peerId != 0
      ensures c.clients[g].peerId != c.clients[f].peerId
    {
      if c.clients[g].peerId == c.clients[f].peerId {
        OneOwner(c, f, g);
      }
    }
  }

  /** A session about to resume in a room that is gone has no lease anywhere. */
  lemma PendingGone(c: Core, f: int)
    requires Inv(c) && f in c.clients && c.clients[f].state == ResumePending && c.clients[f].resumeRoomId !in c.rooms
    ensures NoLease(c.rooms, c.clients[f].peerId)
  {
    SessionFacts(c, f);
    LeaseRoom(c, f);
  }

  lemma ErasedRooms(rooms: Rooms, r: nat, free: set<nat>, next: nat)
    requires RoomsOk(rooms, free, next) && r in rooms
    ensures RoomsOk(rooms - {r}, free + {r}, next)
  {
    var rooms' := rooms - {r};
    assert rooms'.Keys == rooms.Keys - {r};
    assert |rooms'.Keys| == |rooms'| && |rooms.Keys| == |rooms|;
  }
}
