/**
 * Progress of the link of module KcpNetwork: what one flush and one loss-free delivery achieve. Every
 * segment that is due and that the receiver's window admits arrives and is acknowledged; with open
 * windows one round leaves every accepted message at the receiver and nothing at the sender.
 */
module KcpProgress {
  import opened Bytes
  import opened Collections
  import opened KcpWire
  import opened KcpPacking
  import opened Kcp
  import opened KcpQueues
  import opened KcpStream
  import opened KcpNetwork
  import opened KcpFlush

  // ---------------------------------------------------------------- a delivery without loss

  ghost predicate AllDatagrams(conv: U32, ds: seq<seq<Packet>>)
  {
    forall k :: 0 <= k < |ds| ==> DatagramOk(conv, ds[k])
  }

  /** ikcp_input for the bytes of each datagram, in order. */
  ghost function DeliverAll(c: Config, p: Peer, ds: seq<seq<Packet>>): Peer
    requires forall k :: 0 <= k < |ds| ==> Sendable(ds[k])
  {
    if ds == [] then p
    else
      var last := |ds| - 1;
      assert Sendable(ds[last]);
      Input(c, DeliverAll(c, p, ds[..last]), EncodeAll(ds[last])).0
  }

  lemma {:induction false} HandleJoined(c: Config, p: Peer, a: seq<Packet>, b: seq<Packet>)
    ensures HandleAll(c, p, a + b) == HandleAll(c, HandleAll(c, p, a), b)
    decreases |a|
  {
    hide Handle;
    if a == [] {
      assert a + b == b;
    } else {
      HandleJoined(c, Handle(c, p, a[0]), a[1..], b);
      assert (a + b)[1..] == a[1..] + b;
    }
  }

  lemma {:induction false} SeenJoined(a: seq<Packet>, b: seq<Packet>)
    ensures SeenAll(a + b) == SeenAll(a) + SeenAll(b)
  {
    hide SeenAll;
    if a == [] {
      assert a + b == b;
      SeenNone();
      assert [] + SeenAll(b) == SeenAll(b);
    } else {
      SeenJoined(a[1..], b);
      assert (a + b)[1..] == a[1..] + b && (a + b)[0] == a[0];
      SeenFirst(a);
      SeenFirst(a + b);
      Associates([Seen(a[0])], SeenAll(a[1..]), SeenAll(b));
    }
  }

  lemma SeenNone()
    ensures SeenAll([]) == []
  {
  }

  lemma SeenFirst(a: seq<Packet>)
    requires a != []
    ensures SeenAll(a) == [Seen(a[0])] + SeenAll(a[1..])
  {
  }

  lemma DatagramSendable(conv: U32, d: seq<Packet>)
    requires DatagramOk(conv, d)
    ensures Sendable(d) && Parse(conv, EncodeAll(d)) == Parsed(SeenAll(d), 0)
  {
    hide Parse, EncodeAll, SeenAll;
    assert forall i :: 0 <= i < |d| ==> PacketOk(conv, d[i]);
    RoundTrip(conv, d);
  }

  lemma {:induction false} DeliverIs(c: Config, p: Peer, ds: seq<seq<Packet>>)
    requires AllDatagrams(c.conv, ds)
    ensures forall k :: 0 <= k < |ds| ==> Sendable(ds[k])
    ensures DeliverAll(c, p, ds) == HandleAll(c, p, SeenAll(Flat(ds)))
  {
    hide Parse, EncodeAll, HandleAll, SeenAll, DatagramOk, Sendable;
    forall k | 0 <= k < |ds|
      ensures Sendable(ds[k])
    {
      DatagramSendable(c.conv, ds[k]);
    }
    if ds == [] {
      HandleNothing(c, p);
    } else {
      var last := |ds| - 1;
      DeliverIs(c, p, ds[..last]);
      DatagramSendable(c.conv, ds[last]);
      SeenJoined(Flat(ds[..last]), ds[last]);
      HandleJoined(c, p, SeenAll(Flat(ds[..last])), SeenAll(ds[last]));
    }
  }

  lemma HandleNothing(c: Config, p: Peer)
    ensures SeenAll([]) == [] && HandleAll(c, p, []) == p
  {
  }

  /** What a flush sends arrives as the segments it was made of. */
  lemma FlushDelivers(c: Config, cy: Config, p: Peer, o: Oracle, q: Peer)
    requires Ok(c, p) && c.conv == cy.conv
    ensures var ds: seq<seq<Packet>> := Datagrams(c.mtu, FlushPackets(c, p, o));
      && (forall k :: 0 <= k < |ds| ==> Sendable(ds[k]))
      && DeliverAll(cy, q, ds) == HandleAll(cy, q, SeenAll(FlushPackets(c, p, o)))
  {
    hide Datagrams, FlushPackets, Flat, Ok, HandleAll, SeenAll, DatagramOk, DeliverAll;
    var ss := FlushPackets(c, p, o);
    var ds: seq<seq<Packet>> := Datagrams(c.mtu, ss);
    FlushOut(c, p, o, {});
    forall k | 0 <= k < |ds|
      ensures DatagramOk(c.conv, ds[k])
    {
      assert ds[k] in {} + SentTogether(c, ss);
    }
    forall i | 0 <= i < |ss|
      ensures OVERHEAD + |ss[i].data| <= c.mtu
    {
      FlushSegment(c, p, o, i);
    }
    DatagramsPack(c.mtu, ss);
    DeliverIs(cy, q, ds);
  }

  /** x flushes, and all its datagrams reach y in order. */
  ghost predicate Carried(cx: Config, cy: Config, x: Side, y: Side, x': Side, y': Side, o: Oracle)
    requires cx.Valid() && cx.conv == cy.conv && Ok(cx, x.peer)
  {
    FlushDelivers(cx, cy, x.peer, o, y.peer);
    && Moves(cx, x, y, x', FlushStep(o))
    && y' == y.(peer := DeliverAll(cy, y.peer, Datagrams(cx.mtu, FlushPackets(cx, x.peer, o))))
  }

  /** No pending acknowledgement is about a number half the number space behind nxt. */
  ghost predicate Recent(acks: seq<Ack>, nxt: int)
  {
    forall i :: 0 <= i < |acks| ==> nxt - FRESHNESS <= acks[i].sn
  }

  // ---------------------------------------------------------------- what a receiver makes of segments

  /** The receiver has the segment and will acknowledge it with its own number and time stamp. */
  ghost predicate Taken(p: Peer, s: Packet)
  {
    Holds(p, s.sn) && Ack(s.sn, s.ts) in p.acks
  }

  /** What handling segments never takes back. */
  ghost predicate Gains(p: Peer, q: Peer)
  {
    && Grows(p, q) && p.acks <= q.acks && q.rcvNxt - |q.rcvQueue| == p.rcvNxt - |p.rcvQueue|
    && (p.tell ==> q.tell)
  }

  lemma GainsTwice(p: Peer, q: Peer, r: Peer)
    requires Gains(p, q) && Gains(q, r)
    ensures Gains(p, r)
  {
    hide Grows;
    GrowsTwice(p, q, r);
  }

  lemma TakenStays(p: Peer, q: Peer, s: Packet)
    requires Taken(p, s) && Gains(p, q)
    ensures Taken(q, s)
  {
    hide Holds;
  }

  lemma SameGains(p: Peer, q: Peer)
    requires q.rcvNxt == p.rcvNxt && q.rcvBuf == p.rcvBuf && q.rcvQueue == p.rcvQueue && q.acks == p.acks && (p.tell ==> q.tell)
    ensures Gains(p, q)
  {
    hide Grows;
    SameHolds(p, q);
  }

  /** A pushed segment inside the window is taken. */
  lemma PushTaken(c: Config, cy: Config, x: Side, y: Side, s: Packet)
    requires c.Valid() && Ok(c, x.peer) && Ok(cy, y.peer) && Dir(c, x, y)
    requires s.cmd == CMD_PUSH && PushOk(s, x.peer.sndNxt, Stream(c.Mss(), x.sent)) && x.peer.sndNxt - FRESHNESS <= s.sn
    ensures var r := HandlePush(cy, y.peer, Seen(s));
      && Gains(y.peer, r) && r.rmtWnd == y.peer.rmtWnd && r.tell == y.peer.tell
      && r.acks == y.peer.acks + (if s.sn < y.peer.rcvNxt + cy.rcvWnd then [Ack(s.sn, s.ts)] else [])
      && (s.sn < y.peer.rcvNxt + cy.rcvWnd ==> Taken(r, s))
  {
    hide Stream, Insert, MoveReady, Unwrap, Residue, TimeDiff, HasSn, Dir, SendSide, RecvSide, ParseData, Holds, Grows;
    AheadBounded(c, cy, x, y);
    var p, sn := y.peer, s.sn;
    UnwrapExact(sn, p.rcvNxt);
    TimeDiffExact(sn, p.rcvNxt + cy.rcvWnd);
    TimeDiffExact(sn, p.rcvNxt);
    var q := p.(acks := p.acks + [Ack(sn, s.ts)]);
    var e := Entry(sn, Segment(s.frg, s.data), 0);
    SameHolds(p, p);
    if sn < p.rcvNxt + cy.rcvWnd {
      SameHolds(p, q);
      assert q.acks[|p.acks|] == Ack(sn, s.ts);
      if sn >= p.rcvNxt {
        ParseDataPlain(cy, q, e);
        AckedOk(cy, p, Ack(sn, s.ts));
        PieceTaken(cy, q, e);
        GrowsTwice(p, q, HandlePush(cy, p, Seen(s)));
      } else {
        OldHeld(q, sn);
      }
    }
  }

  lemma AckedOk(c: Config, p: Peer, ack: Ack)
    requires Ok(c, p)
    ensures Ok(c, p.(acks := p.acks + [ack]))
  {
    SameSender(c, p, p.(acks := p.acks + [ack]));
    SameReceiver(c, p, p.(acks := p.acks + [ack]));
  }

  lemma OldHeld(p: Peer, sn: int)
    requires 0 <= sn < p.rcvNxt
    ensures Holds(p, sn)
  {
  }

  lemma PieceTaken(c: Config, q: Peer, e: Entry)
    requires Ok(c, q) && q.rcvNxt <= e.sn < q.rcvNxt + c.rcvWnd
    ensures var r := MoveReady(c, q.(rcvBuf := Insert(q.rcvBuf, e)));
      && Grows(q, r) && Holds(r, e.sn) && r.acks == q.acks && r.rmtWnd == q.rmtWnd && r.tell == q.tell
      && r.rcvNxt - |r.rcvQueue| == q.rcvNxt - |q.rcvQueue|
  {
    hide Insert, MoveReady, HasSn, Sorted, Grows, SendSide;
    var q1 := q.(rcvBuf := Insert(q.rcvBuf, e));
    InsertArrives(c, q, e);
    InsertSorted(q.rcvBuf, e);
    InsertedGrows(q, e);
    MoveReadyGrows(c, q1);
    assert Holds(q1, e.sn);
    GrowsHolds(q1, MoveReady(c, q1), e.sn);
    GrowsTwice(q, q1, MoveReady(c, q1));
  }

  /** What one segment from y does to x as a receiver. */
  ghost predicate Received(c: Config, p: Peer, q: Peer, s: Packet)
  {
    && Gains(p, q) && q.rmtWnd == s.wnd && (q.tell <==> p.tell || s.cmd == CMD_WASK)
    && q.acks == p.acks + (if s.cmd == CMD_PUSH && s.sn < p.rcvNxt + c.rcvWnd then [Ack(s.sn, s.ts)] else [])
    && (s.cmd == CMD_PUSH && s.sn < p.rcvNxt + c.rcvWnd ==> Taken(q, s))
  }

  lemma HandleReceives(cx: Config, cy: Config, x: Side, y: Side, s: Packet)
    requires Pair(cx, cy, x, y) && Incoming(cy, x, y, s)
    ensures Received(cx, x.peer, Handle(cx, x.peer, Seen(s)), s)
  {
    hide Dir, Ok, HandleUna, HandlePush, ParseAck, Shrink, Unwrap, Residue, PushOk, AckOk, Stream, Gains, Taken, OutOk;
    var q := HandleUna(x.peer, Seen(s));
    var x1 := x.(peer := q);
    UnaSame(x.peer, Seen(s));
    UnaWindow(x.peer, Seen(s));
    HandleUnaKeeps(cx, x.peer, Seen(s));
    ToldSame(cy, y, x, x1);
    SameGains(x.peer, q);
    if s.cmd == CMD_PUSH {
      PushTaken(cy, cx, y, x1, s);
      GainsTwice(x.peer, q, HandlePush(cx, q, Seen(s)));
    } else {
      HandleSame(cx, x.peer, Seen(s));
      NotPushed(cx, x.peer, Seen(s));
      SameGains(x.peer, Handle(cx, x.peer, Seen(s)));
    }
  }

  lemma UnaWindow(p: Peer, s: Packet)
    ensures HandleUna(p, s).rmtWnd == s.wnd && HandleUna(p, s).tell == p.tell
  {
    hide DropBelow, Unwrap;
  }

  lemma NotPushed(c: Config, p: Peer, s: Packet)
    requires s.cmd != CMD_PUSH
    ensures Handle(c, p, s).rmtWnd == s.wnd && (Handle(c, p, s).tell <==> p.tell || s.cmd == CMD_WASK)
  {
    hide DropBelow, Unwrap, RemoveSn, TimeDiff;
  }

  /** What all segments from y together do to x as a receiver. */
  ghost predicate ReceivedAll(c: Config, p: Peer, q: Peer, d: seq<Packet>)
  {
    && Gains(p, q) && q.rmtWnd == (if d == [] then p.rmtWnd else d[|d| - 1].wnd)
    && (forall i :: 0 <= i < |d| ==> (d[i].cmd == CMD_WASK ==> q.tell))
    && (forall i :: 0 <= i < |d| && d[i].cmd == CMD_PUSH && d[i].sn < p.rcvNxt + c.rcvWnd ==> Taken(q, d[i]))
    && (forall a :: a in q.acks ==> a in p.acks || exists i :: 0 <= i < |d| && d[i].cmd == CMD_PUSH && a.sn == d[i].sn)
  }

  lemma {:induction false} HandleAllReceives(cx: Config, cy: Config, x: Side, y: Side, d: seq<Packet>)
    requires Pair(cx, cy, x, y) && IncomingAll(cy, x, y, d)
    ensures ReceivedAll(cx, x.peer, HandleAll(cx, x.peer, SeenAll(d)), d)
    ensures HandleAll(cx, x.peer, SeenAll(d)).sndNxt == x.peer.sndNxt
    decreases |d|
  {
    hide Dir, Handle, Ok, OutOk, PushOk, AckOk, Stream, ReceivedAll, Received;
    if d == [] {
      NothingReceived(cx, x.peer);
    } else {
      var x1 := x.(peer := Handle(cx, x.peer, Seen(d[0])));
      HandleReceives(cx, cy, x, y, d[0]);
      HandleOnePair(cx, cy, x, y, d);
      HandleAllReceives(cx, cy, x1, y, d[1..]);
      assert SeenAll(d)[1..] == SeenAll(d[1..]);
      ReceivedNext(cx, x.peer, x1.peer, HandleAll(cx, x1.peer, SeenAll(d[1..])), d);
    }
  }

  lemma NothingReceived(c: Config, p: Peer)
    ensures ReceivedAll(c, p, p, [])
  {
    SameGains(p, p);
  }

  lemma ReceivedNext(c: Config, p: Peer, q: Peer, r: Peer, d: seq<Packet>)
    requires d != [] && Received(c, p, q, d[0]) && ReceivedAll(c, q, r, d[1..])
    ensures ReceivedAll(c, p, r, d)
  {
    hide Taken, Grows;
    GainsTwice(p, q, r);
    assert d == [d[0]] + d[1..];
    var t := d[1..];
    assert q.rcvNxt >= p.rcvNxt by {
      Forward(p, q);
    }
    forall i | 0 <= i < |d|
      ensures d[i].cmd == CMD_WASK ==> r.tell
      ensures d[i].cmd == CMD_PUSH && d[i].sn < p.rcvNxt + c.rcvWnd ==> Taken(r, d[i])
    {
      if i > 0 {
        assert d[i] == t[i - 1];
      } else if d[0].cmd == CMD_PUSH && d[0].sn < p.rcvNxt + c.rcvWnd {
        TakenStays(q, r, d[0]);
      }
    }
    forall a | a in r.acks && a !in p.acks
      ensures exists i :: 0 <= i < |d| && d[i].cmd == CMD_PUSH && a.sn == d[i].sn
    {
      if a in q.acks {
        assert d[0].cmd == CMD_PUSH && a.sn == d[0].sn;
      } else {
        var i :| 0 <= i < |t| && t[i].cmd == CMD_PUSH && a.sn == t[i].sn;
        assert d[i + 1] == t[i];
      }
    }
    if |d| > 1 {
      assert t[|t| - 1] == d[|d| - 1];
    }
  }

  lemma Forward(p: Peer, q: Peer)
    requires Grows(p, q)
    ensures q.rcvNxt >= p.rcvNxt
  {
  }

  /** After the first segment the rest is still incoming. */
  lemma HandleOnePair(cx: Config, cy: Config, x: Side, y: Side, d: seq<Packet>)
    requires Pair(cx, cy, x, y) && IncomingAll(cy, x, y, d) && d != []
    ensures var x1 := x.(peer := Handle(cx, x.peer, Seen(d[0])));
      Pair(cx, cy, x1, y) && IncomingAll(cy, x1, y, d[1..]) && x1.peer.sndNxt == x.peer.sndNxt
  {
    hide Dir, Handle, Ok, OutOk, PushOk, AckOk, Stream;
    var s := d[0];
    var x1 := x.(peer := Handle(cx, x.peer, Seen(s)));
    HandleKeeps(cx, x.peer, Seen(s));
    HandleForward(cx, cy, x, y, s);
    HandleBackward(cx, cy, x, y, s);
    HandleSame(cx, x.peer, Seen(s));
    forall i | 0 <= i < |d[1..]|
      ensures Incoming(cy, x1, y, d[1..][i])
    {
      assert Incoming(cy, x, y, d[i + 1]);
      IncomingSame(cy, x, y, x1, d[i + 1]);
    }
  }

  // ---------------------------------------------------------------- what a sender makes of acknowledgements

  /** A segment from y takes out of the send buffer of x exactly the entries below its acknowledgement
   * number and, if it is an acknowledgement, the entry it names. */
  lemma Acknowledged(cx: Config, cy: Config, x: Side, y: Side, s: Packet, sn: int)
    requires Pair(cx, cy, x, y) && Incoming(cy, x, y, s)
    ensures HasSn(Handle(cx, x.peer, Seen(s)).sndBuf, sn) <==>
      HasSn(x.peer.sndBuf, sn) && sn >= s.una && !(s.cmd == CMD_ACK && sn == s.sn)
    ensures var q := Handle(cx, x.peer, Seen(s)); q.sndUna == if q.sndBuf == [] then q.sndNxt else q.sndBuf[0].sn
  {
    hide Dir, RecvSide, DropBelow, RemoveSn, HandlePush, Unwrap, Residue, TimeDiff, HasSn, Sorted, PushOk, AckOk, Stream, OutOk;
    var p := x.peer;
    AckInRange(cx, cy, x, y, s);
    UnwrapExact(s.una, p.sndNxt);
    DropBelowExact(p.sndBuf, s.una, sn);
    DropBelowKeeps(p.sndBuf, s.una);
    var q := HandleUna(p, Seen(s));
    HandleUnaKeeps(cx, p, Seen(s));
    HandleKeeps(cx, p, Seen(s));
    if s.cmd == CMD_ACK {
      UnwrapExact(s.sn, q.sndNxt);
      AckRemoves(cx, q, s.sn, sn);
    } else if s.cmd == CMD_PUSH {
      PushSame(cx, q, Seen(s));
    }
  }

  lemma AckInRange(cx: Config, cy: Config, x: Side, y: Side, s: Packet)
    requires Pair(cx, cy, x, y) && Incoming(cy, x, y, s)
    ensures x.peer.sndNxt - FRESHNESS <= s.una <= x.peer.sndNxt
    ensures s.cmd == CMD_ACK ==> x.peer.sndNxt - FRESHNESS <= s.sn < x.peer.sndNxt
  {
    hide Ok, Stream, Accepted, Sending, Delivered, Conserved, AcksOk, PendingOk, PushesOk, Holds, EntriesFrom;
  }

  /** Also when the number is already below snd_una nothing else goes. */
  lemma AckRemoves(c: Config, p: Peer, sn: int, other: int)
    requires Ok(c, p) && p.sndNxt - FRESHNESS <= sn < p.sndNxt
    ensures HasSn(Shrink(ParseAck(p, sn)).sndBuf, other) <==> HasSn(p.sndBuf, other) && other != sn
  {
    hide RecvSide, RemoveSn, TimeDiff, Residue, HasSn, Sorted;
    TimeDiffExact(sn, p.sndUna);
    TimeDiffExact(sn, p.sndNxt);
    if sn >= p.sndUna {
      RemoveSnExact(p.sndBuf, sn, other);
    } else if HasSn(p.sndBuf, other) {
      AtLeastUna(c, p, other);
    }
  }

  lemma AtLeastUna(c: Config, p: Peer, sn: int)
    requires SendSide(c, p) && HasSn(p.sndBuf, sn)
    ensures p.sndUna <= sn < p.sndNxt
  {
  }

  /** Once a segment acknowledges every number, the send buffer is empty and stays so. */
  lemma {:induction false} AllAcknowledged(cx: Config, cy: Config, x: Side, y: Side, d: seq<Packet>)
    requires Pair(cx, cy, x, y) && IncomingAll(cy, x, y, d)
    requires x.peer.sndBuf == [] || d != []
    requires forall i :: 0 <= i < |d| ==> d[i].una == x.peer.sndNxt
    ensures var q := HandleAll(cx, x.peer, SeenAll(d)); q.sndBuf == [] && q.sndQueue == x.peer.sndQueue
    decreases |d|
  {
    hide Dir, Handle, Ok, OutOk, PushOk, AckOk, Stream, HasSn, FreshFor;
    if d != [] {
      var x1 := x.(peer := Handle(cx, x.peer, Seen(d[0])));
      HandleOnePair(cx, cy, x, y, d);
      HandleQueue(cx, x.peer, Seen(d[0]));
      if x1.peer.sndBuf != [] {
        var sn := x1.peer.sndBuf[0].sn;
        FirstIn(x1.peer.sndBuf);
        Acknowledged(cx, cy, x, y, d[0], sn);
        SentBefore(cx, x.peer, sn);
        assert false;
      }
      AllAcknowledged(cx, cy, x1, y, d[1..]);
      assert SeenAll(d)[1..] == SeenAll(d[1..]);
    }
  }

  lemma FirstIn(buf: seq<Entry>)
    requires buf != []
    ensures HasSn(buf, buf[0].sn)
  {
  }

  lemma SentBefore(c: Config, p: Peer, sn: int)
    requires Ok(c, p) && HasSn(p.sndBuf, sn)
    ensures sn < p.sndNxt
  {
  }

  lemma HandleQueue(c: Config, p: Peer, s: Packet)
    ensures Handle(c, p, s).sndQueue == p.sndQueue
  {
    hide TimeDiff, Unwrap, DropBelow, RemoveSn, HandlePush;
    if s.cmd == CMD_PUSH {
      PushSame(c, HandleUna(p, s), s);
    }
  }

  // ---------------------------------------------------------------- one flush and its delivery

  lemma Symmetric(cx: Config, cy: Config, x: Side, y: Side)
    requires Pair(cx, cy, x, y)
    ensures Pair(cy, cx, y, x)
  {
    hide Dir, SideInv;
  }

  /** The datagrams of a flush are fresh when they arrive at once. */
  lemma FlushIncoming(cx: Config, cy: Config, x: Side, y: Side, x': Side, o: Oracle, s: Packet)
    requires Pair(cx, cy, x, y) && Moves(cx, x, y, x', FlushStep(o))
    requires Recent(x.peer.acks, y.peer.sndNxt) && s in FlushPackets(cx, x.peer, o)
    ensures Incoming(cx, y, x', s) && s.una == x'.peer.rcvNxt
    ensures s.cmd == CMD_PUSH ==> x'.peer.sndNxt - cx.sndWnd <= s.sn
  {
    hide FlushPackets, Stream, Sending, EntriesFrom, Receiving, Delivered, Conserved, AcksOk, PushesOk, PendingOk, Accepted, HasSn;
    hide SendSide, RecvSide, AckOk, PushOk, AdmitCount, MarkSent, Numbered, SentTogether, OutOk;
    var p, st := x.peer, Stream(cx.Mss(), x.sent);
    StreamFragmented(cx.Mss(), x.sent);
    SameHolds(p, x'.peer);
    FlushPushOk(cx, p, o, st, s);
    FlushAckOk(cx, p, x'.peer, o, y.peer.sndNxt, s);
    AheadBounded(cy, cx, y, x);
    var i :| 0 <= i < |FlushPackets(cx, p, o)| && FlushPackets(cx, p, o)[i] == s;
    FlushSegment(cx, p, o, i);
    if s.cmd == CMD_PUSH {
      PushedAbove(cx, p, o, s);
    }
  }

  lemma PushedAbove(c: Config, p: Peer, o: Oracle, s: Packet)
    requires Ok(c, p) && PushesEntry(c, p, o, Admit(p, AdmitCount(c, p, o)).sndBuf, s)
    ensures s.sn >= p.sndUna && Flush(c, p, o).sndNxt <= p.sndUna + c.sndWnd
  {
    hide Numbered, Sorted;
    AppendNumbered(c, p, AdmitCount(c, p, o));
  }

  /** The receiver of a flush: it keeps the link, has taken every due segment that its window admits,
   * knows the sender's window and remembers to answer a window probe. */
  lemma FlushArrives(cx: Config, cy: Config, x: Side, y: Side, x': Side, y': Side, o: Oracle)
    requires Pair(cx, cy, x, y) && Carried(cx, cy, x, y, x', y', o) && Recent(x.peer.acks, y.peer.sndNxt)
    ensures Pair(cx, cy, x', y') && ReceivedAll(cy, y.peer, y'.peer, FlushPackets(cx, x.peer, o))
    ensures y'.peer.sndNxt == y.peer.sndNxt && y'.peer == HandleAll(cy, y.peer, SeenAll(FlushPackets(cx, x.peer, o)))
    ensures IncomingAll(cx, y, x', FlushPackets(cx, x.peer, o))
    ensures forall i :: 0 <= i < |FlushPackets(cx, x.peer, o)| ==> FlushPackets(cx, x.peer, o)[i].una == x'.peer.rcvNxt
    ensures Pair(cy, cx, y, x')
  {
    hide Dir, SideInv, FlushPackets, Flush, HandleAll, SeenAll, Datagrams, DeliverAll, SentTogether, Incoming, ReceivedAll;
    var ss := FlushPackets(cx, x.peer, o);
    assert Ok(cx, x.peer) by {
      SideOk(cx, x);
    }
    FlushDelivers(cx, cy, x.peer, o, y.peer);
    StepKeeps(cx, cy, x, y, x', FlushStep(o));
    Symmetric(cx, cy, x', y);
    forall i | 0 <= i < |ss|
      ensures Incoming(cx, y, x', ss[i]) && ss[i].una == x'.peer.rcvNxt
    {
      FlushIncoming(cx, cy, x, y, x', o, ss[i]);
    }
    HandleAllPair(cy, cx, y, x', ss);
    HandleAllReceives(cy, cx, y, x', ss);
    Symmetric(cy, cx, y', x');
  }

  lemma SideOk(c: Config, x: Side)
    requires SideInv(c, x)
    ensures Ok(c, x.peer)
  {
  }

  /** A due entry of the send buffer below the receiver's window edge is at the receiver after the
   * delivery, and its acknowledgement is pending there. */
  lemma DueArrives(cx: Config, cy: Config, x: Side, y: Side, x': Side, y': Side, o: Oracle, i: nat)
    requires Pair(cx, cy, x, y) && Carried(cx, cy, x, y, x', y', o) && Recent(x.peer.acks, y.peer.sndNxt)
    requires i < |x'.peer.sndBuf| && Due(x.peer, o, x'.peer, i) && x'.peer.sndBuf[i].sn < y.peer.rcvNxt + cy.rcvWnd
    ensures Holds(y'.peer, x'.peer.sndBuf[i].sn) && Ack(x'.peer.sndBuf[i].sn, o.current) in y'.peer.acks
  {
    hide Dir, SideInv, FlushPackets, Flush, Due, Taken, Holds, DeliverAll, SentTogether, FlushParts;
    SideOk(cx, x);
    FlushArrives(cx, cy, x, y, x', y', o);
    var ss := FlushPackets(cx, x.peer, o);
    var s := DataOf(cx, x.peer, o, x'.peer.sndBuf[i]);
    DueSent(cx, x.peer, o, i);
    var k :| 0 <= k < |ss| && ss[k] == s;
    assert Taken(y'.peer, ss[k]);
    TakenMeans(y'.peer, s);
  }

  lemma TakenMeans(p: Peer, s: Packet)
    requires Taken(p, s)
    ensures Holds(p, s.sn) && Ack(s.sn, s.ts) in p.acks
  {
  }

  lemma DueSent(c: Config, p: Peer, o: Oracle, i: nat)
    requires Ok(c, p) && i < |Flush(c, p, o).sndBuf| && Due(p, o, Flush(c, p, o), i)
    ensures DataOf(c, p, o, Flush(c, p, o).sndBuf[i]) in FlushPackets(c, p, o)
  {
    hide Ok, FlushParts, FlushPackets, Flush, Due, DataOf;
    FlushFills(c, p, o);
    FlushIs(c, p, o);
    var r := FlushParts(c, p, o);
    assert DataOf(c, p, o, Flush(c, p, o).sndBuf[i]) in r.data;
  }

  // ---------------------------------------------------------------- a round

  /** All that is queued fits below the three windows. */
  ghost predicate Open(c: Config, p: Peer, o: Oracle)
  {
    var all := p.sndNxt + |p.sndQueue|;
    all <= p.sndUna + o.cwnd && all <= p.sndUna + c.sndWnd && all <= p.sndUna + p.rmtWnd
  }

  /** Every unacknowledged entry that was sent before is due for retransmission. */
  ghost predicate AllDue(p: Peer, o: Oracle)
  {
    forall i :: 0 <= i < |p.sndBuf| ==> p.sndBuf[i].xmit == 0 || p.sndBuf[i].sn in o.due
  }

  /** Nothing holds x back: its windows are open, its timers have run out, and the receiver has room for
   * all that its user has not read. */
  ghost predicate Clear(cx: Config, cy: Config, x: Side, y: Side, o: Oracle)
    requires cx.Valid()
  {
    && Open(cx, x.peer, o) && AllDue(x.peer, o)
    && |Stream(cx.Mss(), x.sent)| <= |Stream(cx.Mss(), y.got)| + cy.rcvWnd
  }

  lemma QueueEmptied(c: Config, p: Peer, o: Oracle)
    requires Ok(c, p) && Open(c, p, o)
    ensures Flush(c, p, o).sndQueue == [] && Flush(c, p, o).sndNxt == p.sndNxt + |p.sndQueue|
  {
    hide Ok, Flush;
    FlushFills(c, p, o);
  }

  lemma EachDue(c: Config, p: Peer, o: Oracle, i: nat)
    requires Ok(c, p) && AllDue(p, o) && i < |Flush(c, p, o).sndBuf|
    ensures Due(p, o, Flush(c, p, o), i)
  {
    hide Ok, Flush;
    FlushFills(c, p, o);
  }

  /** The receiver holds every number in use. */
  lemma RoundHeld(cx: Config, cy: Config, x: Side, y: Side, x': Side, y': Side, o: Oracle, sn: int)
    requires Pair(cx, cy, x, y) && Carried(cx, cy, x, y, x', y', o) && Recent(x.peer.acks, y.peer.sndNxt)
    requires Clear(cx, cy, x, y, o) && 0 <= sn < x'.peer.sndNxt
    ensures Holds(y'.peer, sn) && (HasSn(x'.peer.sndBuf, sn) ==> Ack(sn, o.current) in y'.peer.acks)
  {
    hide SideInv, FlushPackets, Flush, Due, Holds, DeliverAll, SentTogether, Stream, Sending, Accepted, AcksOk, PendingOk, PushesOk;
    hide Open, AllDue, HasSn, ReceivedAll, Gains, Grows;
    StepKeeps(cx, cy, x, y, x', FlushStep(o));
    StreamEnd(cx, x', y);
    FlushArrives(cx, cy, x, y, x', y', o);
    ReceivedGrows(cy, y.peer, y'.peer, FlushPackets(cx, x.peer, o));
    if HasSn(x'.peer.sndBuf, sn) {
      SideOk(cx, x);
      var i := IndexOf(x'.peer.sndBuf, sn);
      EachDue(cx, x.peer, o, i);
      DueArrives(cx, cy, x, y, x', y', o, i);
    } else {
      assert Holds(y.peer, sn);
      GrowsHolds(y.peer, y'.peer, sn);
    }
  }

  lemma IndexOf(buf: seq<Entry>, sn: int) returns (i: nat)
    requires HasSn(buf, sn)
    ensures i < |buf| && buf[i].sn == sn
  {
    i :| 0 <= i < |buf| && buf[i].sn == sn;
  }

  lemma ReceivedGrows(c: Config, p: Peer, q: Peer, d: seq<Packet>)
    requires ReceivedAll(c, p, q, d)
    ensures Grows(p, q) && q.rcvNxt - |q.rcvQueue| == p.rcvNxt - |p.rcvQueue|
  {
    hide Grows, Taken;
  }

  lemma StreamEnd(c: Config, x: Side, y: Side)
    requires c.Valid() && Dir(c, x, y)
    ensures x.peer.sndNxt + |x.peer.sndQueue| == |Stream(c.Mss(), x.sent)|
    ensures y.peer.rcvNxt - |y.peer.rcvQueue| == |Stream(c.Mss(), y.got)| && y.peer.rcvNxt <= x.peer.sndNxt
  {
    hide Stream, Conserved, AcksOk, PendingOk, PushesOk, Accepted, EntriesFrom;
  }

  /** A receiver that holds every number below nxt and has room for them has passed them all on. */
  lemma AllPassed(c: Config, p: Peer, nxt: int)
    requires Ok(c, p) && p.rcvNxt <= nxt && nxt - (p.rcvNxt - |p.rcvQueue|) <= c.rcvWnd
    requires forall sn :: 0 <= sn < nxt ==> Holds(p, sn)
    ensures p.rcvNxt == nxt
  {
    hide SendSide, HasSn, Sorted;
    assert p.rcvNxt < nxt ==> Holds(p, p.rcvNxt);
  }

  /** One flush and its delivery: the queue of the sender is empty, and the receiver has passed on the
   * whole stream of the accepted messages. */
  lemma RoundArrives(cx: Config, cy: Config, x: Side, y: Side, x': Side, y': Side, o: Oracle)
    requires Pair(cx, cy, x, y) && Carried(cx, cy, x, y, x', y', o) && Recent(x.peer.acks, y.peer.sndNxt)
    requires Clear(cx, cy, x, y, o)
    ensures Pair(cx, cy, x', y') && x'.peer.sndQueue == [] && x'.sent == x.sent && y'.got == y.got
    ensures x'.peer.sndNxt == y'.peer.rcvNxt == |Stream(cx.Mss(), x.sent)|
    ensures x'.peer.sndBuf != [] ==> y'.peer.acks != []
  {
    hide Ok, OutOk, FlushPackets, Flush, DeliverAll, SentTogether, Stream, Holds, Dir, Open, AllDue, ReceivedAll, Datagrams;
    SideOk(cx, x);
    QueueEmptied(cx, x.peer, o);
    FlushArrives(cx, cy, x, y, x', y', o);
    StreamEnd(cx, x', y');
    SideOk(cy, y');
    forall sn | 0 <= sn < x'.peer.sndNxt
      ensures Holds(y'.peer, sn)
    {
      RoundHeld(cx, cy, x, y, x', y', o, sn);
    }
    AllPassed(cy, y'.peer, x'.peer.sndNxt);
    if x'.peer.sndBuf != [] {
      var sn := x'.peer.sndBuf[0].sn;
      FirstIn(x'.peer.sndBuf);
      SideOk(cx, x');
      AtLeastZero(cx, x'.peer, sn);
      RoundHeld(cx, cy, x, y, x', y', o, sn);
    }
  }

  lemma AtLeastZero(c: Config, p: Peer, sn: int)
    requires Ok(c, p) && HasSn(p.sndBuf, sn)
    ensures 0 <= sn < p.sndNxt
  {
  }

  // ---------------------------------------------------------------- the way back

  lemma RecentStays(cx: Config, cy: Config, x: Side, y: Side, x': Side, y': Side, o: Oracle)
    requires Pair(cx, cy, x, y) && Carried(cx, cy, x, y, x', y', o) && Recent(x.peer.acks, y.peer.sndNxt)
    requires Recent(y.peer.acks, x'.peer.sndNxt)
    ensures Recent(y'.peer.acks, x'.peer.sndNxt)
  {
    hide Dir, Ok, OutOk, FlushPackets, Flush, DeliverAll, SentTogether, Stream, Incoming, Gains, Taken, Datagrams;
    var ss := FlushPackets(cx, x.peer, o);
    FlushArrives(cx, cy, x, y, x', y', o);
    forall j | 0 <= j < |y'.peer.acks|
      ensures x'.peer.sndNxt - FRESHNESS <= y'.peer.acks[j].sn
    {
      var a := y'.peer.acks[j];
      if a !in y.peer.acks {
        var i :| 0 <= i < |ss| && ss[i].cmd == CMD_PUSH && a.sn == ss[i].sn;
        FlushIncoming(cx, cy, x, y, x', o, ss[i]);
      }
    }
  }

  /** A flush is silent only if there is nothing to acknowledge, to ask or to tell; every segment
   * announces the free window. */
  lemma FlushSpeaks(c: Config, p: Peer, o: Oracle)
    requires Ok(c, p)
    ensures p.acks != [] || p.tell || (p.rmtWnd == 0 && o.probe) ==> FlushPackets(c, p, o) != []
    ensures p.rmtWnd == 0 && o.probe ==> exists i :: 0 <= i < |FlushPackets(c, p, o)| && FlushPackets(c, p, o)[i].cmd == CMD_WASK
    ensures forall i :: 0 <= i < |FlushPackets(c, p, o)| ==> FlushPackets(c, p, o)[i].wnd == Window(c, p)
  {
    hide Ok, FlushParts, FlushPackets, Flush, PartsOf, Whole, Window;
    FlushFills(c, p, o);
    FlushIs(c, p, o);
    PartsSpeak(c, p, o, Flush(c, p, o), FlushParts(c, p, o));
    PartsAnnounce(c, p, o, Flush(c, p, o), FlushParts(c, p, o));
  }

  lemma PartsSpeak(c: Config, p: Peer, o: Oracle, q: Peer, r: Parts)
    requires |p.sndBuf| <= |q.sndBuf| && PartsOf(c, p, o, q, r)
    ensures p.acks != [] || p.tell || (p.rmtWnd == 0 && o.probe) ==> Whole(r) != []
    ensures p.rmtWnd == 0 && o.probe ==> exists i :: 0 <= i < |Whole(r)| && Whole(r)[i].cmd == CMD_WASK
  {
    hide Due, Window, AckOf, DataOf;
    if p.rmtWnd == 0 && o.probe {
      assert Whole(r)[|r.acks|] == r.probes[0];
    }
  }

  lemma PartsAnnounce(c: Config, p: Peer, o: Oracle, q: Peer, r: Parts)
    requires |p.sndBuf| <= |q.sndBuf| && PartsOf(c, p, o, q, r)
    ensures forall i :: 0 <= i < |Whole(r)| ==> Whole(r)[i].wnd == Window(c, p)
  {
    hide Due, Window;
    var ss := Whole(r);
    forall i | 0 <= i < |ss|
      ensures ss[i].wnd == Window(c, p)
    {
      if i < |r.acks| {
        assert ss[i] == r.acks[i];
      } else if i < |r.acks| + |r.probes| {
        assert ss[i] == r.probes[i - |r.acks|];
      } else {
        assert ss[i] == r.data[i - |r.acks| - |r.probes|] && ss[i] in r.data;
      }
    }
  }

  /** The answer empties the send buffer. */
  lemma RoundAnswered(cx: Config, cy: Config, x: Side, y: Side, x': Side, y': Side, o: Oracle)
    requires Pair(cx, cy, x, y) && Carried(cy, cx, y, x, y', x', o) && Recent(y.peer.acks, x.peer.sndNxt)
    requires y.peer.rcvNxt == x.peer.sndNxt && x.peer.sndQueue == [] && (x.peer.sndBuf != [] ==> y.peer.acks != [])
    ensures Pair(cx, cy, x', y') && x'.peer.sndNxt == x.peer.sndNxt
    ensures x'.peer.sndQueue == [] && x'.peer.sndBuf == [] && x'.peer.sndUna == x'.peer.sndNxt
    ensures y'.peer.rcvNxt == y.peer.rcvNxt && y'.got == y.got && x'.sent == x.sent
    ensures x.peer.sndBuf != [] ==> x'.peer.rmtWnd == Window(cy, y.peer)
  {
    hide Dir, Ok, OutOk, FlushPackets, Flush, DeliverAll, SentTogether, Stream, Incoming, Gains, Taken, Datagrams;
    hide Window, HandleAll, SeenAll;
    Symmetric(cx, cy, x, y);
    SideOk(cy, y);
    FlushFills(cy, y.peer, o);
    FlushArrives(cy, cx, y, x, y', x', o);
    FlushSpeaks(cy, y.peer, o);
    AllAcknowledged(cx, cy, x, y', FlushPackets(cy, y.peer, o));
    Symmetric(cy, cx, y', x');
    SideOk(cx, x');
    EmptyUna(cx, x'.peer);
  }

  lemma EmptyUna(c: Config, p: Peer)
    requires Ok(c, p) && p.sndBuf == []
    ensures p.sndUna == p.sndNxt
  {
  }

  // ---------------------------------------------------------------- reading

  /** The user of y reads n times, each time with room for len bytes. */
  ghost function Reads(c: Config, y: Side, n: nat, len: nat): Side
    decreases n
  {
    if n == 0 then y
    else
      var r := Recv(c, y.peer, len);
      Reads(c, y.(peer := r.peer, got := if r.result < 0 then y.got else y.got + [r.data]), n - 1, len)
  }

  /** With the whole stream passed on, each read returns the next message. */
  lemma ReadOne(cx: Config, cy: Config, x: Side, y: Side, y': Side, len: nat)
    requires Pair(cx, cy, x, y) && Moves(cy, y, x, y', RecvStep(len))
    requires y.peer.rcvNxt == |Stream(cx.Mss(), x.sent)| && |y.got| < |x.sent| && |x.sent[|y.got|]| <= len
    ensures Pair(cx, cy, x, y') && y'.got == y.got + [x.sent[|y.got|]] && y'.peer.rcvNxt == y.peer.rcvNxt
  {
    hide SideInv, OutOk, Recv, Stream, Fragments, Conserved, AcksOk, PendingOk, PushesOk, Accepted, Sending, EntriesFrom;
    var k, mss := |y.got|, cx.Mss();
    Symmetric(cx, cy, x, y);
    StepKeeps(cy, cx, y, x, y', RecvStep(len));
    Symmetric(cy, cx, y', x);
    assert y.got == x.sent[..k];
    StreamPrefix(mss, x.sent, k);
    RecvMeans(cx, cy, x, y, len);
    SideOk(cy, y);
    RecvOnward(cy, y.peer, len);
    assert Receiving(y'.peer, Stream(mss, x.sent), x.peer.sndNxt);
  }

  lemma RecvOnward(c: Config, p: Peer, len: int)
    requires Ok(c, p)
    ensures Recv(c, p, len).peer.rcvNxt >= p.rcvNxt
  {
    hide Sorted, Within, HasSn, MoveReady, PeekSize, Merge, SendSide;
    var n := Span(p.rcvQueue);
    MoveReadyKeeps(c, if len < 0 then p else p.(rcvQueue := p.rcvQueue[n..]), 0);
  }

  lemma {:induction false} ReadAll(cx: Config, cy: Config, x: Side, y: Side, n: nat, len: nat)
    requires Pair(cx, cy, x, y) && y.peer.rcvNxt == |Stream(cx.Mss(), x.sent)| && n == |x.sent| - |y.got|
    requires forall i :: 0 <= i < |x.sent| ==> |x.sent[i]| <= len
    ensures Reads(cy, y, n, len).got == x.sent
    decreases n
  {
    hide Dir, SideInv, Recv, Stream;
    if n == 0 {
      GotPrefix(cx, x, y);
    } else {
      var r := Recv(cy, y.peer, len);
      var y1 := y.(peer := r.peer, got := if r.result < 0 then y.got else y.got + [r.data]);
      ReadOne(cx, cy, x, y, y1, len);
      ReadAll(cx, cy, x, y1, n - 1, len);
    }
  }

  lemma GotPrefix(c: Config, x: Side, y: Side)
    requires c.Valid() && Dir(c, x, y)
    ensures y.got <= x.sent
  {
    hide Stream, Sending, Receiving, Conserved, AcksOk, PendingOk, PushesOk, Accepted;
  }

  // ---------------------------------------------------------------- the theorems

  /** Progress: x flushes and its datagrams arrive, then y flushes and its datagrams arrive. If nothing
   * held x back, the whole stream of the accepted messages is at y, the sender has nothing left, and
   * reading returns exactly the accepted messages. */
  lemma RoundDelivers(cx: Config, cy: Config, x: Side, y: Side, x1: Side, y1: Side, x2: Side, y2: Side, o: Oracle, o2: Oracle,
      len: nat)
    requires Pair(cx, cy, x, y) && Recent(x.peer.acks, y.peer.sndNxt) && Recent(y.peer.acks, |Stream(cx.Mss(), x.sent)|)
    requires Clear(cx, cy, x, y, o) && Carried(cx, cy, x, y, x1, y1, o)
    requires Ok(cy, y1.peer) && Carried(cy, cx, y1, x1, y2, x2, o2)
    requires forall i :: 0 <= i < |x.sent| ==> |x.sent[i]| <= len
    ensures Pair(cx, cy, x2, y2) && y2.peer.rcvNxt == |Stream(cx.Mss(), x.sent)|
    ensures x2.peer.sndQueue == [] && x2.peer.sndBuf == [] && x2.peer.sndUna == x2.peer.sndNxt
    ensures |y.got| <= |x.sent| && Reads(cy, y2, |x.sent| - |y.got|, len).got == x.sent
  {
    hide Dir, SideInv, Stream, Clear, Recent, Moves, FlushPackets, DeliverAll, Datagrams, Reads, Ok;
    RoundArrives(cx, cy, x, y, x1, y1, o);
    RecentStays(cx, cy, x, y, x1, y1, o);
    RoundAnswered(cx, cy, x1, y1, x2, y2, o2);
    GotPrefix(cx, x, y);
    ReadAll(cx, cy, x2, y2, |x.sent| - |y.got|, len);
  }

  /** In particular the first message between two new ends: sent, flushed, delivered and read. */
  lemma FirstMessage(cx: Config, cy: Config, msg: seq<Byte>, x: Side, x1: Side, y1: Side, x2: Side, y2: Side, o: Oracle, o2: Oracle)
    requires cx.Valid() && cy.Valid() && cx.conv == cy.conv && Moves(cx, Start(), Start(), x, SendStep(msg))
    requires var n := Count(cx.Mss(), |msg|); n <= o.cwnd && n <= cx.sndWnd && n < 128
    requires Ok(cx, x.peer) && Carried(cx, cy, x, Start(), x1, y1, o) && Ok(cy, y1.peer) && Carried(cy, cx, y1, x1, y2, x2, o2)
    ensures Reads(cy, y2, 1, |msg|).got == [msg] && x2.peer.sndBuf == []
  {
    hide Pair, Ok, Stream, Fragments, Count, Carried, Reads;
    StartPair(cx, cy);
    StepKeeps(cx, cy, Start(), Start(), x, SendStep(msg));
    FragmentsCount(cx.Mss(), msg);
    StreamAppend(cx.Mss(), [], msg);
    assert [] + [msg] == [msg];
    StreamNone(cx.Mss());
    RoundDelivers(cx, cy, x, Start(), x1, y1, x2, y2, o, o2, |msg|);
  }

  lemma StreamNone(mss: nat)
    requires 0 < mss
    ensures Stream(mss, []) == []
  {
  }

  /** A sender whose peer closed its window learns the peer's free window from one probe. */
  lemma ProbeAnswered(cx: Config, cy: Config, x: Side, y: Side, x1: Side, y1: Side, x2: Side, y2: Side, o: Oracle, o2: Oracle)
    requires Pair(cx, cy, x, y) && Recent(x.peer.acks, y.peer.sndNxt) && x.peer.rmtWnd == 0 && o.probe
    requires Carried(cx, cy, x, y, x1, y1, o) && Recent(y.peer.acks, x1.peer.sndNxt)
    requires Ok(cy, y1.peer) && Carried(cy, cx, y1, x1, y2, x2, o2)
    ensures y1.peer.tell && x2.peer.rmtWnd == (cy.rcvWnd - |y1.peer.rcvQueue|) % 0x1_0000
  {
    hide Dir, Ok, OutOk, Flush, FlushPackets, DeliverAll, SentTogether, Stream, Incoming, Gains, Taken, Datagrams;
    hide Window, HandleAll, SeenAll, Recent;
    SideOk(cx, x);
    FlushArrives(cx, cy, x, y, x1, y1, o);
    FlushSpeaks(cx, x.peer, o);
    RecentStays(cx, cy, x, y, x1, y1, o);
    Symmetric(cx, cy, x1, y1);
    FlushArrives(cy, cx, y1, x1, y2, x2, o2);
    FlushSpeaks(cy, y1.peer, o2);
    WindowLeft(cy, y1.peer);
  }

  lemma WindowLeft(c: Config, p: Peer)
    requires Ok(c, p)
    ensures Window(c, p) == (c.rcvWnd - |p.rcvQueue|) % 0x1_0000
  {
  }
}
