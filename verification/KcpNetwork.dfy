/**
 * Two KCP endpoints and a network that loses, duplicates and reorders datagrams. A datagram that
 * was sent stays deliverable, any number of times or never, until it is half the 32-bit number space
 * behind, less room for both windows. Both directions carry messages at once.
 */
module KcpNetwork {
  import opened Bytes
  import opened KcpWire
  import opened KcpPacking
  import opened Kcp
  import opened KcpQueues
  import opened KcpStream

  /** Half the number space less twice the largest window. */
  const FRESHNESS: int := 0x6000_0000

  /** One end: its state, all datagrams it ever sent, and the history of its user: the messages
   * ikcp_send accepted and the messages ikcp_recv returned. */
  datatype Side = Side(peer: Peer, out: set<seq<Packet>>, sent: seq<seq<Byte>>, got: seq<seq<Byte>>)

  // ---------------------------------------------------------------- one direction

  ghost predicate EntriesFrom(buf: seq<Entry>, st: seq<Segment>)
  {
    forall i :: 0 <= i < |buf| ==> 0 <= buf[i].sn < |st| && buf[i].seg == st[buf[i].sn]
  }

  /** The sender's queue is the unsent rest of the stream, its buffer holds pieces of the stream. */
  ghost predicate Sending(p: Peer, st: seq<Segment>)
  {
    0 <= p.sndNxt <= |st| && p.sndQueue == st[p.sndNxt..] && EntriesFrom(p.sndBuf, st)
  }

  /** The receiver's queue is the piece of the stream before rcv_nxt, its buffer holds pieces
   * that were sent. */
  ghost predicate Receiving(p: Peer, st: seq<Segment>, nxt: int)
  {
    && |p.rcvQueue| <= p.rcvNxt <= nxt <= |st| && p.rcvQueue == st[p.rcvNxt - |p.rcvQueue|..p.rcvNxt]
    && EntriesFrom(p.rcvBuf, st) && forall i :: 0 <= i < |p.rcvBuf| ==> p.rcvBuf[i].sn < nxt
  }

  /** What the receiver's user has got are the first messages of the sender's user, and the
   * receive queue starts where the next message starts. */
  ghost predicate Delivered(mss: nat, sent: seq<seq<Byte>>, p: Peer, got: seq<seq<Byte>>)
    requires 0 < mss
  {
    got <= sent && p.rcvNxt - |p.rcvQueue| == |Stream(mss, got)|
  }

  /** Every segment that has a number is at the sender or at the receiver. */
  ghost predicate Conserved(x: Peer, y: Peer)
  {
    forall sn :: 0 <= sn < x.sndNxt ==> Holds(y, sn) || HasSn(x.sndBuf, sn)
  }

  ghost predicate PushOk(s: Packet, nxt: int, st: seq<Segment>)
  {
    s.cmd == CMD_PUSH ==> 0 <= s.sn < nxt <= |st| && st[s.sn] == Segment(s.frg, s.data)
  }

  /** An acknowledgement tells the truth about the receiver y. */
  ghost predicate AckOk(s: Packet, y: Peer, nxt: int)
  {
    && 0 <= s.una <= y.rcvNxt
    && (s.cmd == CMD_ACK ==> Holds(y, s.sn) && 0 <= s.sn < nxt)
  }

  ghost predicate PushesOk(ds: set<seq<Packet>>, nxt: int, st: seq<Segment>)
  {
    forall d, i :: d in ds && 0 <= i < |d| ==> PushOk(d[i], nxt, st)
  }

  ghost predicate AcksOk(ds: set<seq<Packet>>, y: Peer, nxt: int)
  {
    forall d, i :: d in ds && 0 <= i < |d| ==> AckOk(d[i], y, nxt)
  }

  ghost predicate PendingOk(y: Peer, nxt: int)
  {
    forall i :: 0 <= i < |y.acks| ==> Holds(y, y.acks[i].sn) && 0 <= y.acks[i].sn < nxt
  }

  /** The invariant of the direction from x to y; c configures x. */
  ghost predicate Dir(c: Config, x: Side, y: Side)
    requires c.Valid()
  {
    var st := Stream(c.Mss(), x.sent);
    && Accepted(c.Mss(), x.sent)
    && Sending(x.peer, st) && Receiving(y.peer, st, x.peer.sndNxt)
    && Delivered(c.Mss(), x.sent, y.peer, y.got)
    && Conserved(x.peer, y.peer)
    && PushesOk(x.out, x.peer.sndNxt, st)
    && AcksOk(y.out, y.peer, x.peer.sndNxt)
    && PendingOk(y.peer, x.peer.sndNxt)
  }

  ghost predicate PacketOk(conv: U32, s: Packet)
  {
    s.conv == conv && Known(s.cmd) && |s.data| < HALF
  }

  ghost predicate DatagramOk(conv: U32, d: seq<Packet>)
  {
    d != [] && forall i :: 0 <= i < |d| ==> PacketOk(conv, d[i])
  }

  ghost predicate OutOk(conv: U32, ds: set<seq<Packet>>)
  {
    forall d :: d in ds ==> DatagramOk(conv, d)
  }

  // ---------------------------------------------------------------- the whole link

  datatype Link = Link(a: Side, b: Side)

  ghost predicate SideInv(c: Config, x: Side)
  {
    Ok(c, x.peer) && OutOk(c.conv, x.out)
  }

  ghost predicate Pair(cx: Config, cy: Config, x: Side, y: Side)
  {
    && cx.conv == cy.conv && SideInv(cx, x) && SideInv(cy, y)
    && cx.Valid() && cy.Valid() && Dir(cx, x, y) && Dir(cy, y, x)
  }

  /** No datagram outlives its freshness: nothing in it is that far behind. */
  ghost predicate FreshFor(s: Packet, x: Peer, y: Peer)
  {
    && x.sndNxt - FRESHNESS <= s.una
    && (s.cmd == CMD_ACK ==> x.sndNxt - FRESHNESS <= s.sn)
    && (s.cmd == CMD_PUSH ==> y.sndNxt - FRESHNESS <= s.sn)
  }

  ghost predicate Fresh(d: seq<Packet>, x: Peer, y: Peer)
  {
    forall i :: 0 <= i < |d| ==> FreshFor(d[i], x, y)
  }

  datatype Step =
    | SendStep(msg: seq<Byte>)
    | RecvStep(len: int)
    | FlushStep(o: Oracle)
    | DeliverStep(d: seq<Packet>)

  ghost function SentTogether(c: Config, ss: seq<Packet>): set<seq<Packet>>
  {
    set d | d in Datagrams(c.mtu, ss)
  }

  /** What a step makes of side x; y is the other side. */
  ghost predicate Moves(c: Config, x: Side, y: Side, x': Side, s: Step)
    requires c.Valid()
  {
    match s
    case SendStep(msg) =>
      var r := Send(c, x.peer, msg);
      x' == x.(peer := r.0, sent := if r.1 < 0 then x.sent else x.sent + [msg])
    case RecvStep(len) =>
      var r := Recv(c, x.peer, len);
      x' == x.(peer := r.peer, got := if r.result < 0 || len < 0 then x.got else x.got + [r.data])
    case FlushStep(o) =>
      x' == x.(peer := Flush(c, x.peer, o), out := x.out + SentTogether(c, FlushPackets(c, x.peer, o)))
    case DeliverStep(d) =>
      d in y.out && Fresh(d, x.peer, y.peer) && Sendable(d) && x' == x.(peer := Input(c, x.peer, EncodeAll(d)).0)
  }

  // ---------------------------------------------------------------- send

  lemma SendForward(c: Config, x: Side, y: Side, msg: seq<Byte>)
    requires c.Valid() && Dir(c, x, y) && Count(c.Mss(), |msg|) < WND_RCV
    ensures var x' := x.(peer := Send(c, x.peer, msg).0, sent := x.sent + [msg]); Dir(c, x', y)
  {
    hide Stream, Fragments, HasSn, Conserved, AcksOk, PendingOk, Count;
    var mss := c.Mss();
    var st, more := Stream(mss, x.sent), Fragments(mss, msg);
    var x' := x.(peer := Send(c, x.peer, msg).0, sent := x.sent + [msg]);
    StreamAppend(mss, x.sent, msg);
    FragmentsCount(mss, msg);
    assert x'.peer.sndQueue == (st + more)[x.peer.sndNxt..];
    assert Conserved(x'.peer, y.peer) by {
      ConservedSame(x.peer, y.peer, x'.peer, y.peer);
    }
  }

  lemma ConservedSame(x: Peer, y: Peer, x': Peer, y': Peer)
    requires Conserved(x, y) && x'.sndNxt == x.sndNxt && x'.sndBuf == x.sndBuf && y'.rcvNxt == y.rcvNxt && y'.rcvBuf == y.rcvBuf
    ensures Conserved(x', y')
  {
    hide HasSn;
    forall sn | 0 <= sn < x'.sndNxt
      ensures Holds(y', sn) || HasSn(x'.sndBuf, sn)
    {
      assert Holds(y, sn) || HasSn(x.sndBuf, sn);
    }
  }

  // ---------------------------------------------------------------- what the receiver learns

  /** y' has got all that y has. */
  ghost predicate Grows(y: Peer, y': Peer)
  {
    y.rcvNxt <= y'.rcvNxt && forall sn :: Holds(y, sn) ==> Holds(y', sn)
  }

  lemma AcksGrow(ds: set<seq<Packet>>, y: Peer, y': Peer, nxt: int)
    requires AcksOk(ds, y, nxt) && Grows(y, y')
    ensures AcksOk(ds, y', nxt)
  {
    hide Holds;
    forall d, i | d in ds && 0 <= i < |d|
      ensures AckOk(d[i], y', nxt)
    {
      assert AckOk(d[i], y, nxt);
    }
  }

  lemma ConservedGrows(x: Peer, y: Peer, y': Peer)
    requires Conserved(x, y) && Grows(y, y')
    ensures Conserved(x, y')
  {
    hide Holds, HasSn;
  }

  lemma PendingGrows(y: Peer, y': Peer, nxt: int)
    requires PendingOk(y, nxt) && Grows(y, y') && y'.acks == y.acks
    ensures PendingOk(y', nxt)
  {
    hide Holds;
  }

  lemma MoveReadyGrows(c: Config, p: Peer)
    requires c.Valid() && Arrived(c, p)
    ensures Grows(p, MoveReady(c, p))
    ensures MoveReady(c, p) == p.(rcvNxt := MoveReady(c, p).rcvNxt, rcvBuf := MoveReady(c, p).rcvBuf, rcvQueue := MoveReady(c, p).rcvQueue)
    ensures MoveReady(c, p).rcvNxt - |MoveReady(c, p).rcvQueue| == p.rcvNxt - |p.rcvQueue|
    ensures RecvSide(c, MoveReady(c, p))
  {
    hide Holds, MoveReady, Arrived, RecvSide;
    MoveReadyKeeps(c, p, 0);
    forall sn | Holds(p, sn)
      ensures Holds(MoveReady(c, p), sn)
    {
      MoveReadyKeeps(c, p, sn);
    }
  }

  /** Segments moved to the receive queue extend it along the stream. */
  lemma {:induction false} MoveReadyStream(c: Config, p: Peer, st: seq<Segment>, nxt: int)
    requires c.Valid() && Arrived(c, p) && Receiving(p, st, nxt)
    ensures Receiving(MoveReady(c, p), st, nxt)
    decreases |p.rcvBuf|
  {
    hide Residue, HasSn, Arrived, Receiving;
    NextIsFirst(c, p);
    if p.rcvBuf != [] && Residue(p.rcvBuf[0].sn) == Residue(p.rcvNxt) && |p.rcvQueue| < c.rcvWnd {
      var q := p.(rcvBuf := p.rcvBuf[1..], rcvQueue := p.rcvQueue + [p.rcvBuf[0].seg], rcvNxt := p.rcvNxt + 1);
      MovedOne(c, p, 0);
      MovedStream(p, st, nxt);
      MoveReadyStream(c, q, st, nxt);
    }
  }

  lemma MovedStream(p: Peer, st: seq<Segment>, nxt: int)
    requires Receiving(p, st, nxt) && p.rcvBuf != [] && p.rcvBuf[0].sn == p.rcvNxt
    ensures Receiving(p.(rcvBuf := p.rcvBuf[1..], rcvQueue := p.rcvQueue + [p.rcvBuf[0].seg], rcvNxt := p.rcvNxt + 1), st, nxt)
  {
    var q := p.(rcvBuf := p.rcvBuf[1..], rcvQueue := p.rcvQueue + [p.rcvBuf[0].seg], rcvNxt := p.rcvNxt + 1);
    assert q.rcvQueue == st[q.rcvNxt - |q.rcvQueue|..q.rcvNxt];
  }

  /** The receive queue starts with the message after those delivered. */
  lemma NextMessage(c: Config, x: Side, y: Side)
    requires c.Valid() && Dir(c, x, y) && y.peer.rcvQueue != []
    ensures |y.got| < |x.sent| && Heads(y.peer.rcvQueue, Fragments(c.Mss(), x.sent[|y.got|]))
  {
    hide Stream, Fragments, HasSn, Conserved, AcksOk, PendingOk, PushesOk, Sending, Accepted, EntriesFrom;
    var mss, p, k := c.Mss(), y.peer, |y.got|;
    var st := Stream(mss, x.sent);
    assert y.got == x.sent[..k];
    assert |Stream(mss, y.got)| < |st|;
    assert x.sent[..|x.sent|] == x.sent;
    StreamPrefix(mss, x.sent, k);
    HeadsOf(Stream(mss, y.got), Fragments(mss, x.sent[k]), st, p.rcvQueue);
  }

  lemma HeadsOf(before: seq<Segment>, f: seq<Segment>, st: seq<Segment>, q: seq<Segment>)
    requires before + f <= st && |before| + |q| <= |st| && q == st[|before|..|before| + |q|]
    ensures Heads(q, f)
  {
    assert f == st[|before|..|before| + |f|];
  }

  lemma TakenSegments(p: Peer, st: seq<Segment>, nxt: int, n: nat)
    requires Receiving(p, st, nxt) && n <= |p.rcvQueue|
    ensures Receiving(p.(rcvQueue := p.rcvQueue[n..]), st, nxt)
  {
    hide EntriesFrom;
  }

  /** What ikcp_recv returns is the next message the other user's ikcp_send accepted, if the head
   * message is complete and fits; otherwise it says why not. */
  lemma RecvMeans(c: Config, cy: Config, x: Side, y: Side, len: int)
    requires c.Valid() && cy.Valid() && Dir(c, x, y)
    ensures var r := Recv(cy, y.peer, len);
      var size := if len < 0 then -len else len;
      if y.peer.rcvQueue == [] then r.result == -1
      else
        && |y.got| < |x.sent|
        && var m := x.sent[|y.got|];
          if |y.peer.rcvQueue| < |Fragments(c.Mss(), m)| then r.result == -2
          else if |m| > size then r.result == -3
          else r.result == |m| && r.data == m
    ensures Recv(cy, y.peer, len).result < 0 ==> Recv(cy, y.peer, len).peer == y.peer
  {
    hide Dir, PeekSize, Fragments, Span, Merge, MoveReady;
    if y.peer.rcvQueue != [] {
      NextMessage(c, x, y);
      RecvHead(c.Mss(), cy, y.peer, len, x.sent[|y.got|]);
    }
  }

  /** Receiving a message keeps the direction towards the receiver. */
  lemma RecvForward(c: Config, cy: Config, x: Side, y: Side, y': Side, len: int)
    requires c.Valid() && Ok(cy, y.peer) && Dir(c, x, y) && Moves(cy, y, x, y', RecvStep(len))
    ensures Dir(c, x, y')
  {
    hide Stream, Fragments, HasSn, Conserved, AcksOk, PendingOk, PushesOk, Sending, Accepted, EntriesFrom;
    hide PeekSize, Span, Merge, MoveReady, SendSide, Sorted, Within, Receiving, Grows;
    var p, st, nxt := y.peer, Stream(c.Mss(), x.sent), x.peer.sndNxt;
    RecvMeans(c, cy, x, y, len);
    if Recv(cy, p, len).result >= 0 {
      var m := x.sent[|y.got|];
      NextMessage(c, x, y);
      RecvHead(c.Mss(), cy, p, len, m);
      var n := Span(p.rcvQueue);
      var taken := if len < 0 then p else p.(rcvQueue := p.rcvQueue[n..]);
      TakenSegments(p, st, nxt, n);
      TakenGrows(p, n);
      ReceiverMoves(c, cy, x, y, p, taken);
      MoveReadyGrows(cy, taken);
      if len >= 0 {
        StreamAppend(c.Mss(), y.got, m);
        assert x.sent[..|y.got| + 1] == y.got + [m];
      }
      ToldSame(c, x, y.(peer := MoveReady(cy, taken), got := y'.got), y');
    }
  }

  lemma TakenGrows(p: Peer, n: nat)
    requires n <= |p.rcvQueue|
    ensures Grows(p, p) && Grows(p, p.(rcvQueue := p.rcvQueue[n..]))
  {
  }

  /** Everything but the user's history survives a change of the receiver that only grows. */
  lemma ReceiverMoves(c: Config, cy: Config, x: Side, y: Side, p: Peer, q: Peer)
    requires c.Valid() && cy.Valid() && Dir(c, x, y) && p == y.peer && Arrived(cy, q) && Grows(p, q) && q.acks == p.acks
    requires Receiving(q, Stream(c.Mss(), x.sent), x.peer.sndNxt)
    ensures var r := MoveReady(cy, q);
      && Receiving(r, Stream(c.Mss(), x.sent), x.peer.sndNxt)
      && Conserved(x.peer, r) && AcksOk(y.out, r, x.peer.sndNxt) && PendingOk(r, x.peer.sndNxt)
  {
    hide Stream, Conserved, AcksOk, PendingOk, PushesOk, Sending, Receiving, Delivered, Accepted, MoveReady, Grows, Arrived;
    var r := MoveReady(cy, q);
    MoveReadyStream(cy, q, Stream(c.Mss(), x.sent), x.peer.sndNxt);
    MoveReadyGrows(cy, q);
    GrowsTwice(p, q, r);
    ConservedGrows(x.peer, p, r);
    AcksGrow(y.out, p, r, x.peer.sndNxt);
    PendingGrows(p, r, x.peer.sndNxt);
  }

  lemma GrowsTwice(p: Peer, q: Peer, r: Peer)
    requires Grows(p, q) && Grows(q, r)
    ensures Grows(p, r)
  {
    hide Holds;
  }

  /** The window announcement does not matter to a direction, nor does the other role of a peer. */
  lemma ToldSame(c: Config, x: Side, y: Side, y': Side)
    requires c.Valid() && Dir(c, x, y)
    requires y'.peer.rcvNxt == y.peer.rcvNxt && y'.peer.rcvBuf == y.peer.rcvBuf && y'.peer.rcvQueue == y.peer.rcvQueue
    requires y'.peer.acks == y.peer.acks && y'.out == y.out && y'.got == y.got
    ensures Dir(c, x, y')
  {
    hide Stream, HasSn, PushesOk, Sending, Accepted, EntriesFrom;
    AcksGrow(y.out, y.peer, y'.peer, x.peer.sndNxt);
    ConservedGrows(x.peer, y.peer, y'.peer);
    PendingGrows(y.peer, y'.peer, x.peer.sndNxt);
  }

  /** A direction does not look at the receiving role of its sender. */
  lemma SenderSame(c: Config, x: Side, y: Side, x': Side)
    requires c.Valid() && Dir(c, x, y)
    requires x'.peer.sndNxt == x.peer.sndNxt && x'.peer.sndQueue == x.peer.sndQueue && x'.peer.sndBuf == x.peer.sndBuf
    requires x'.out == x.out && x'.sent == x.sent
    ensures Dir(c, x', y)
  {
    hide Stream, Accepted, Receiving, Delivered, EntriesFrom, AcksOk, PendingOk, PushesOk;
    ConservedSame(x.peer, y.peer, x'.peer, y.peer);
  }

  // ---------------------------------------------------------------- flush

  ghost predicate PushesEntry(c: Config, p: Peer, o: Oracle, buf: seq<Entry>, s: Packet)
  {
    exists k :: 0 <= k < |buf| && s == PushPacket(c, p, o, buf[k])
  }

  ghost predicate AnswersAck(p: Peer, s: Packet)
  {
    exists k :: 0 <= k < |p.acks| && s.sn == p.acks[k].sn
  }

  lemma {:induction false} PushPacketsFrom(c: Config, p: Peer, o: Oracle, buf: seq<Entry>, i: nat)
    requires i < |PushPackets(c, p, o, buf)|
    ensures PushesEntry(c, p, o, buf, PushPackets(c, p, o, buf)[i])
  {
    hide PushPacket, Needed;
    var last := |buf| - 1;
    var before := PushPackets(c, p, o, buf[..last]);
    if i < |before| {
      PushPacketsFrom(c, p, o, buf[..last], i);
      var k :| 0 <= k < last && before[i] == PushPacket(c, p, o, buf[..last][k]);
      assert buf[..last][k] == buf[k];
    }
  }

  /** What each segment of a flush is. */
  lemma FlushSegment(c: Config, p: Peer, o: Oracle, i: nat)
    requires Ok(c, p) && i < |FlushPackets(c, p, o)|
    ensures var s, buf := FlushPackets(c, p, o)[i], Admit(p, AdmitCount(c, p, o)).sndBuf;
      && s.una == p.rcvNxt && PacketOk(c.conv, s) && OVERHEAD + |s.data| <= c.mtu
      && (s.cmd == CMD_ACK ==> AnswersAck(p, s))
      && (s.cmd == CMD_PUSH ==> PushesEntry(c, p, o, buf, s))
  {
    hide PushPackets, Admit, AdmitCount, Unused, SendSide, RecvSide;
    var buf := Admit(p, AdmitCount(c, p, o)).sndBuf;
    var a, b, d := AckPackets(c, p, |p.acks|), ProbePackets(c, p, o), PushPackets(c, p, o, buf);
    var s := FlushPackets(c, p, o)[i];
    if i < |a| {
      assert s == a[i];
    } else if i < |a| + |b| {
      assert s == b[i - |a|];
    } else {
      PushPacketsFrom(c, p, o, buf, i - |a| - |b|);
      assert s == d[i - |a| - |b|];
      AdmittedSmall(c, p, o);
      var k :| 0 <= k < |buf| && s == PushPacket(c, p, o, buf[k]);
    }
  }

  lemma AdmittedSmall(c: Config, p: Peer, o: Oracle)
    requires Ok(c, p)
    ensures SmallEntries(c, Admit(p, AdmitCount(c, p, o)).sndBuf)
  {
    hide Numbered;
    AppendNumbered(c, p, AdmitCount(c, p, o));
  }

  /** Every segment of every datagram of a flush is one of the flush's segments. */
  lemma FlushDatagram(c: Config, p: Peer, o: Oracle, d: seq<Packet>)
    requires Ok(c, p) && d in SentTogether(c, FlushPackets(c, p, o))
    ensures Fits(c.mtu, d) && forall j :: 0 <= j < |d| ==> d[j] in FlushPackets(c, p, o)
  {
    hide Datagrams, FlushPackets, Flat, Ok;
    var ss := FlushPackets(c, p, o);
    var ds: seq<seq<Packet>> := Datagrams(c.mtu, ss);
    forall i | 0 <= i < |ss|
      ensures OVERHEAD + |ss[i].data| <= c.mtu
    {
      FlushSegment(c, p, o, i);
    }
    DatagramsPack(c.mtu, ss);
    var k :| 0 <= k < |ds| && ds[k] == d;
    forall j | 0 <= j < |d|
      ensures d[j] in ss
    {
      FlatMembers(ds, k, j);
    }
  }

  lemma AdmittedFrom(c: Config, p: Peer, st: seq<Segment>, n: nat)
    requires Sending(p, st) && n <= |p.sndQueue|
    ensures Sending(Admit(p, n), st)
  {
    var q := Admit(p, n);
    var more := Numbered(p.sndQueue[..n], p.sndNxt);
    forall i | 0 <= i < |q.sndBuf|
      ensures 0 <= q.sndBuf[i].sn < |st| && q.sndBuf[i].seg == st[q.sndBuf[i].sn]
    {
      if i >= |p.sndBuf| {
        assert q.sndBuf[i] == more[i - |p.sndBuf|];
      }
    }
  }

  lemma AdmittedConserves(p: Peer, y: Peer, n: nat)
    requires Conserved(p, y) && n <= |p.sndQueue|
    ensures Conserved(Admit(p, n), y)
  {
    hide Holds;
    var q := Admit(p, n);
    var more := Numbered(p.sndQueue[..n], p.sndNxt);
    forall sn | 0 <= sn < q.sndNxt
      ensures Holds(y, sn) || HasSn(q.sndBuf, sn)
    {
      if sn >= p.sndNxt {
        assert q.sndBuf[|p.sndBuf| + sn - p.sndNxt] == more[sn - p.sndNxt];
      } else if !Holds(y, sn) {
        var i :| 0 <= i < |p.sndBuf| && p.sndBuf[i].sn == sn;
        assert q.sndBuf[i] == p.sndBuf[i];
      }
    }
  }

  lemma SentSame(q: Peer, y: Peer, st: seq<Segment>, o: Oracle)
    requires Sending(q, st) && Conserved(q, y)
    ensures var r := q.(acks := [], tell := false, sndBuf := MarkSent(q.sndBuf, o));
      Sending(r, st) && Conserved(r, y)
  {
    hide Holds;
    var r := q.(acks := [], tell := false, sndBuf := MarkSent(q.sndBuf, o));
    forall sn | 0 <= sn < r.sndNxt
      ensures Holds(y, sn) || HasSn(r.sndBuf, sn)
    {
      if !Holds(y, sn) {
        var i :| 0 <= i < |q.sndBuf| && q.sndBuf[i].sn == sn;
        assert r.sndBuf[i].sn == sn;
      }
    }
  }

  /** A pushed segment carries its piece of the stream under its number. */
  lemma FlushPushOk(c: Config, p: Peer, o: Oracle, st: seq<Segment>, s: Packet)
    requires Ok(c, p) && s in FlushPackets(c, p, o) && Fragmented(c.Mss(), st)
    requires Sending(p, st)
    ensures PushOk(s, Flush(c, p, o).sndNxt, st)
  {
    hide FlushPackets, AdmitCount, SendSide, RecvSide, PushPacket, Numbered;
    var i :| 0 <= i < |FlushPackets(c, p, o)| && FlushPackets(c, p, o)[i] == s;
    FlushSegment(c, p, o, i);
    if s.cmd == CMD_PUSH {
      var n := AdmitCount(c, p, o);
      var buf := Admit(p, n).sndBuf;
      AdmittedFrom(c, p, st, n);
      AdmittedWithin(c, p, n, o);
      var k :| 0 <= k < |buf| && s == PushPacket(c, p, o, buf[k]);
      EntryPushOk(c, p, o, st, buf[k], Admit(p, n).sndNxt);
    }
  }

  lemma EntryPushOk(c: Config, p: Peer, o: Oracle, st: seq<Segment>, e: Entry, nxt: int)
    requires 0 <= e.sn < nxt <= |st| && e.seg == st[e.sn] && e.seg.frg < 256
    ensures PushOk(PushPacket(c, p, o, e), nxt, st)
  {
  }

  lemma AdmittedWithin(c: Config, p: Peer, n: nat, o: Oracle)
    requires Ok(c, p) && n == AdmitCount(c, p, o)
    ensures Within(Admit(p, n).sndBuf, 0, Admit(p, n).sndNxt)
  {
    AppendNumbered(c, p, n);
  }

  lemma FlushForward(c: Config, x: Side, y: Side, x': Side, o: Oracle)
    requires c.Valid() && Ok(c, x.peer) && Dir(c, x, y) && Moves(c, x, y, x', FlushStep(o))
    ensures Dir(c, x', y)
  {
    hide Stream, Accepted, Delivered, EntriesFrom, Sending, Conserved, FlushPackets, SentTogether, AdmitCount, MarkSent, Numbered;
    hide SendSide, RecvSide, HasSn, PushOk, Sorted;
    var p, st := x.peer, Stream(c.Mss(), x.sent);
    var n := AdmitCount(c, p, o);
    StreamFragmented(c.Mss(), x.sent);
    AdmittedFrom(c, p, st, n);
    AdmittedConserves(p, y.peer, n);
    SentSame(Admit(p, n), y.peer, st, o);
    Later(y, p.sndNxt, x'.peer.sndNxt, st);
    forall d, i | d in x'.out && 0 <= i < |d|
      ensures PushOk(d[i], x'.peer.sndNxt, st)
    {
      if d in x.out {
        PushLater(d[i], p.sndNxt, x'.peer.sndNxt, st);
      } else {
        FlushDatagram(c, p, o, d);
        FlushPushOk(c, p, o, st, d[i]);
      }
    }
  }

  lemma PushLater(s: Packet, nxt: int, nxt': int, st: seq<Segment>)
    requires PushOk(s, nxt, st) && nxt <= nxt' <= |st|
    ensures PushOk(s, nxt', st)
  {
  }

  /** More sequence numbers in use do not disturb the receiver's part. */
  lemma Later(y: Side, nxt: int, nxt': int, st: seq<Segment>)
    requires nxt <= nxt' <= |st| && Receiving(y.peer, st, nxt) && AcksOk(y.out, y.peer, nxt) && PendingOk(y.peer, nxt)
    ensures Receiving(y.peer, st, nxt') && AcksOk(y.out, y.peer, nxt') && PendingOk(y.peer, nxt')
  {
    hide Holds, EntriesFrom;
    forall d, i | d in y.out && 0 <= i < |d|
      ensures AckOk(d[i], y.peer, nxt')
    {
      assert AckOk(d[i], y.peer, nxt);
    }
  }

  /** The acknowledgements a receiver flushes are true. */
  lemma FlushBackward(c: Config, cy: Config, x: Side, y: Side, y': Side, o: Oracle)
    requires c.Valid() && Ok(cy, y.peer) && Dir(c, x, y) && Moves(cy, y, x, y', FlushStep(o))
    ensures Dir(c, x, y')
  {
    hide Stream, Accepted, EntriesFrom, Sending, FlushPackets, SentTogether, AdmitCount, MarkSent, Numbered;
    hide SendSide, RecvSide, Holds, PushOk, Sorted, Conserved, AckOk;
    var p, q := y.peer, y'.peer;
    SameHolds(p, q);
    ConservedGrows(x.peer, p, q);
    AcksGrow(y.out, p, q, x.peer.sndNxt);
    forall d, i | d in y'.out && 0 <= i < |d|
      ensures AckOk(d[i], q, x.peer.sndNxt)
    {
      if d !in y.out {
        FlushDatagram(cy, p, o, d);
        FlushAckOk(cy, p, q, o, x.peer.sndNxt, d[i]);
      }
    }
  }

  lemma SameHolds(p: Peer, q: Peer)
    requires q.rcvNxt == p.rcvNxt && q.rcvBuf == p.rcvBuf
    ensures Grows(p, q)
  {
  }

  lemma FlushAckOk(c: Config, p: Peer, q: Peer, o: Oracle, nxt: int, s: Packet)
    requires Ok(c, p) && s in FlushPackets(c, p, o) && PendingOk(p, nxt) && Grows(p, q) && q.rcvNxt == p.rcvNxt
    ensures AckOk(s, q, nxt)
  {
    hide FlushPackets, Holds, SendSide;
    var i :| 0 <= i < |FlushPackets(c, p, o)| && FlushPackets(c, p, o)[i] == s;
    FlushSegment(c, p, o, i);
  }

  // ---------------------------------------------------------------- delivery, sender side

  /** The parts of a direction that depend on the send buffer survive when only received entries go. */
  lemma BufferShrinks(c: Config, x: Side, y: Side, buf: seq<Entry>)
    requires c.Valid() && Dir(c, x, y) && Kept(buf, x.peer.sndBuf)
    requires forall sn :: HasSn(x.peer.sndBuf, sn) && !Holds(y.peer, sn) ==> HasSn(buf, sn)
    ensures Dir(c, x.(peer := x.peer.(sndBuf := buf)), y)
  {
    hide Stream, Accepted, Receiving, Delivered, AcksOk, PendingOk, PushesOk, HasSn, Holds;
    var st, p := Stream(c.Mss(), x.sent), x.peer.(sndBuf := buf);
    forall i | 0 <= i < |buf|
      ensures 0 <= buf[i].sn < |st| && buf[i].seg == st[buf[i].sn]
    {
      assert buf[i] in x.peer.sndBuf;
    }
    forall sn | 0 <= sn < p.sndNxt
      ensures Holds(y.peer, sn) || HasSn(buf, sn)
    {
      assert Holds(y.peer, sn) || HasSn(x.peer.sndBuf, sn);
    }
  }

  /** Entries below a true acknowledgement number have all been received. */
  lemma UnaBackward(c: Config, x: Side, y: Side, s: Packet)
    requires c.Valid() && Ok(c, x.peer) && Dir(c, x, y) && AckOk(s, y.peer, x.peer.sndNxt)
    requires x.peer.sndNxt - FRESHNESS <= s.una
    ensures Dir(c, x.(peer := HandleUna(x.peer, Seen(s))), y)
  {
    hide DropBelow, Unwrap, Residue, HasSn, Sorted, Kept, RecvSide, Stream;
    hide Accepted, Sending, Delivered, Conserved, AcksOk, PendingOk, PushesOk;
    var p := x.peer;
    UnwrapExact(s.una, p.sndNxt);
    var buf := DropBelow(p.sndBuf, s.una);
    DropBelowKeeps(p.sndBuf, s.una);
    forall sn | HasSn(p.sndBuf, sn) && !Holds(y.peer, sn)
      ensures HasSn(buf, sn)
    {
      DropBelowExact(p.sndBuf, s.una, sn);
      SnInside(c, p, sn);
    }
    BufferShrinks(c, x, y, buf);
    var x1 := x.(peer := p.(sndBuf := buf));
    SenderSame(c, x1, y, x.(peer := HandleUna(p, Seen(s))));
  }

  lemma SnInside(c: Config, p: Peer, sn: int)
    requires SendSide(c, p) && HasSn(p.sndBuf, sn)
    ensures 0 <= sn < p.sndNxt
  {
  }

  /** An acknowledged entry has been received. */
  lemma AckBackward(c: Config, x: Side, y: Side, s: Packet)
    requires c.Valid() && Ok(c, x.peer) && Dir(c, x, y) && AckOk(s, y.peer, x.peer.sndNxt) && s.cmd == CMD_ACK
    requires x.peer.sndNxt - FRESHNESS <= s.sn
    ensures Dir(c, x.(peer := Shrink(ParseAck(x.peer, Unwrap(Residue(s.sn), x.peer.sndNxt)))), y)
  {
    hide RemoveSn, Unwrap, Residue, TimeDiff, HasSn, Sorted, Kept, RecvSide, Stream;
    hide Accepted, Sending, Receiving, Delivered, Conserved, AcksOk, PendingOk, PushesOk;
    var p := x.peer;
    UnwrapExact(s.sn, p.sndNxt);
    var buf := ParseAck(p, s.sn).sndBuf;
    RemoveSnKeeps(p.sndBuf, s.sn);
    SelfKept(p.sndBuf);
    forall sn | HasSn(p.sndBuf, sn) && !Holds(y.peer, sn)
      ensures HasSn(buf, sn)
    {
      RemoveSnExact(p.sndBuf, s.sn, sn);
    }
    BufferShrinks(c, x, y, buf);
    SenderSame(c, x.(peer := p.(sndBuf := buf)), y, x.(peer := Shrink(ParseAck(p, s.sn))));
  }

  // ---------------------------------------------------------------- delivery, receiver side

  /** The sender is at most both windows ahead of the receiver. */
  lemma AheadBounded(c: Config, cy: Config, x: Side, y: Side)
    requires c.Valid() && Ok(c, x.peer) && Ok(cy, y.peer) && Dir(c, x, y)
    ensures y.peer.rcvNxt <= x.peer.sndNxt <= y.peer.rcvNxt + cy.rcvWnd + c.sndWnd
  {
    hide Stream, Accepted, Delivered, AcksOk, PendingOk, PushesOk, Sorted, EntriesFrom;
    var sn := y.peer.rcvNxt + cy.rcvWnd;
    if sn < x.peer.sndNxt {
      assert Holds(y.peer, sn) || HasSn(x.peer.sndBuf, sn);
    }
  }

  lemma {:induction false} MoveReadyAcks(c: Config, p: Peer, acks: seq<Ack>)
    ensures MoveReady(c, p.(acks := acks)) == MoveReady(c, p).(acks := acks)
    decreases |p.rcvBuf|
  {
    hide Residue;
    if p.rcvBuf != [] && Residue(p.rcvBuf[0].sn) == Residue(p.rcvNxt) && |p.rcvQueue| < c.rcvWnd {
      MoveReadyAcks(c, p.(rcvBuf := p.rcvBuf[1..], rcvQueue := p.rcvQueue + [p.rcvBuf[0].seg], rcvNxt := p.rcvNxt + 1), acks);
    }
  }

  lemma AckAdded(c: Config, x: Side, y: Side, ack: Ack)
    requires c.Valid() && Dir(c, x, y) && Holds(y.peer, ack.sn) && 0 <= ack.sn < x.peer.sndNxt
    ensures Dir(c, x, y.(peer := y.peer.(acks := y.peer.acks + [ack])))
  {
    hide Stream, Accepted, Sending, EntriesFrom, PushesOk, HasSn, AcksOk, Conserved, PendingOk;
    var q := y.peer.(acks := y.peer.acks + [ack]);
    SameHolds(y.peer, q);
    ConservedGrows(x.peer, y.peer, q);
    AcksGrow(y.out, y.peer, q, x.peer.sndNxt);
    PendingAdded(y.peer, ack, x.peer.sndNxt);
  }

  lemma PendingAdded(y: Peer, ack: Ack, nxt: int)
    requires PendingOk(y, nxt) && Holds(y, ack.sn) && 0 <= ack.sn < nxt
    ensures PendingOk(y.(acks := y.acks + [ack]), nxt)
  {
    hide HasSn;
  }

  /** A fresh piece of the stream inside the window is taken in. */
  lemma PieceForward(c: Config, cy: Config, x: Side, y: Side, e: Entry)
    requires c.Valid() && Ok(cy, y.peer) && Dir(c, x, y)
    requires y.peer.rcvNxt <= e.sn < y.peer.rcvNxt + cy.rcvWnd && e.sn < x.peer.sndNxt
    requires var st := Stream(c.Mss(), x.sent); e.sn < |st| && st[e.sn] == e.seg
    ensures var r := MoveReady(cy, y.peer.(rcvBuf := Insert(y.peer.rcvBuf, e)));
      Dir(c, x, y.(peer := r)) && Holds(r, e.sn)
  {
    hide Stream, Accepted, Sending, PushesOk, AcksOk, Conserved, PendingOk, Insert, MoveReady, HasSn, Sorted, Grows, SendSide, Delivered;
    var p, st, nxt := y.peer, Stream(c.Mss(), x.sent), x.peer.sndNxt;
    var q := p.(rcvBuf := Insert(p.rcvBuf, e));
    InsertArrives(cy, p, e);
    InsertSorted(p.rcvBuf, e);
    InsertedGrows(p, e);
    forall i | 0 <= i < |q.rcvBuf|
      ensures 0 <= q.rcvBuf[i].sn < nxt && q.rcvBuf[i].seg == st[q.rcvBuf[i].sn]
    {
      assert q.rcvBuf[i] in p.rcvBuf + [e];
    }
    ReceiverMoves(c, cy, x, y, p, q);
    MoveReadyGrows(cy, q);
    assert Holds(q, e.sn);
    GrowsHolds(q, MoveReady(cy, q), e.sn);
    DeliveredSame(c, x, y, MoveReady(cy, q));
  }

  lemma DeliveredSame(c: Config, x: Side, y: Side, r: Peer)
    requires c.Valid() && Delivered(c.Mss(), x.sent, y.peer, y.got)
    requires r.rcvNxt - |r.rcvQueue| == y.peer.rcvNxt - |y.peer.rcvQueue|
    ensures Delivered(c.Mss(), x.sent, r, y.got)
  {
    hide Stream;
  }

  lemma GrowsHolds(q: Peer, r: Peer, sn: int)
    requires Grows(q, r) && Holds(q, sn)
    ensures Holds(r, sn)
  {
    hide Holds;
  }

  lemma InsertedGrows(p: Peer, e: Entry)
    ensures Grows(p, p.(rcvBuf := Insert(p.rcvBuf, e)))
  {
    hide Insert, HasSn;
    forall sn | HasSn(p.rcvBuf, sn)
      ensures HasSn(Insert(p.rcvBuf, e), sn)
    {
      InsertKeeps(p.rcvBuf, e, sn);
    }
  }

  /** A pushed segment is taken in if it is in the window and new, and acknowledged if the
   * receiver then holds it. */
  lemma PushForward(c: Config, cy: Config, x: Side, y: Side, s: Packet)
    requires c.Valid() && Ok(c, x.peer) && Ok(cy, y.peer) && Dir(c, x, y)
    requires s.cmd == CMD_PUSH && PushOk(s, x.peer.sndNxt, Stream(c.Mss(), x.sent)) && x.peer.sndNxt - FRESHNESS <= s.sn
    ensures Dir(c, x, y.(peer := HandlePush(cy, y.peer, Seen(s))))
  {
    hide Stream, Insert, MoveReady, Unwrap, Residue, TimeDiff, HasSn, Dir, SendSide, RecvSide, ParseData;
    AheadBounded(c, cy, x, y);
    var p, sn := y.peer, s.sn;
    UnwrapExact(sn, p.rcvNxt);
    TimeDiffExact(sn, p.rcvNxt + cy.rcvWnd);
    TimeDiffExact(sn, p.rcvNxt);
    var ack, e := Ack(sn, s.ts), Entry(sn, Segment(s.frg, s.data), 0);
    if sn < p.rcvNxt + cy.rcvWnd {
      if sn >= p.rcvNxt {
        var q := p.(rcvBuf := Insert(p.rcvBuf, e));
        ParseDataPlain(cy, p.(acks := p.acks + [ack]), e);
        PieceForward(c, cy, x, y, e);
        MoveReadyAcks(cy, q, p.acks + [ack]);
        SameAcks(cy, q);
        AckAdded(c, x, y.(peer := MoveReady(cy, q)), ack);
      } else {
        AckAdded(c, x, y, ack);
      }
    }
  }

  lemma {:induction false} SameAcks(c: Config, p: Peer)
    ensures MoveReady(c, p).acks == p.acks
    decreases |p.rcvBuf|
  {
    hide Residue;
    if p.rcvBuf != [] && Residue(p.rcvBuf[0].sn) == Residue(p.rcvNxt) && |p.rcvQueue| < c.rcvWnd {
      SameAcks(c, p.(rcvBuf := p.rcvBuf[1..], rcvQueue := p.rcvQueue + [p.rcvBuf[0].seg], rcvNxt := p.rcvNxt + 1));
    }
  }

  // ---------------------------------------------------------------- delivery, a whole datagram

  /** What is known about a segment on its way from y to x. */
  ghost predicate Incoming(cy: Config, x: Side, y: Side, s: Packet)
    requires cy.Valid()
  {
    && AckOk(s, y.peer, x.peer.sndNxt)
    && PushOk(s, y.peer.sndNxt, Stream(cy.Mss(), y.sent))
    && FreshFor(s, x.peer, y.peer) && Known(s.cmd)
  }

  lemma HandleSame(c: Config, p: Peer, s: Packet)
    ensures Handle(c, p, s).sndNxt == p.sndNxt
    ensures s.cmd != CMD_PUSH ==> var q := Handle(c, p, s);
      q.rcvNxt == p.rcvNxt && q.rcvBuf == p.rcvBuf && q.rcvQueue == p.rcvQueue && q.acks == p.acks
  {
    hide TimeDiff, Unwrap, DropBelow, RemoveSn, Insert, MoveReady;
    if s.cmd == CMD_PUSH {
      PushSame(c, HandleUna(p, s), s);
    }
  }

  lemma PushSame(c: Config, p: Peer, s: Packet)
    ensures var q := HandlePush(c, p, s);
      q.sndNxt == p.sndNxt && q.sndBuf == p.sndBuf && q.sndQueue == p.sndQueue
  {
    hide TimeDiff, Unwrap, Insert, MoveReady;
    var sn := Unwrap(s.sn, p.rcvNxt);
    var q := p.(acks := p.acks + [Ack(sn, s.ts)]);
    MoveReadySends(c, q.(rcvBuf := Insert(q.rcvBuf, Entry(sn, Segment(s.frg, s.data), 0))));
  }

  lemma {:induction false} MoveReadySends(c: Config, p: Peer)
    ensures var q := MoveReady(c, p); q.sndNxt == p.sndNxt && q.sndBuf == p.sndBuf && q.sndQueue == p.sndQueue
    decreases |p.rcvBuf|
  {
    hide Residue;
    if p.rcvBuf != [] && Residue(p.rcvBuf[0].sn) == Residue(p.rcvNxt) && |p.rcvQueue| < c.rcvWnd {
      MoveReadySends(c, p.(rcvBuf := p.rcvBuf[1..], rcvQueue := p.rcvQueue + [p.rcvBuf[0].seg], rcvNxt := p.rcvNxt + 1));
    }
  }

  /** One segment from y, as sender of acknowledgements: the direction from x to y is kept. */
  lemma HandleBackward(cx: Config, cy: Config, x: Side, y: Side, s: Packet)
    requires cx.Valid() && cy.Valid() && Ok(cx, x.peer) && Dir(cx, x, y) && Incoming(cy, x, y, s)
    ensures Dir(cx, x.(peer := Handle(cx, x.peer, Seen(s))), y)
  {
    hide Dir, SendSide, RecvSide, HandleUna, HandlePush, ParseAck, Shrink, Unwrap, Residue, PushOk, AckOk, Stream;
    var q := HandleUna(x.peer, Seen(s));
    var x1 := x.(peer := q);
    UnaBackward(cx, x, y, s);
    HandleUnaKeeps(cx, x.peer, Seen(s));
    UnaSame(x.peer, Seen(s));
    if s.cmd == CMD_ACK {
      AckBackward(cx, x1, y, s);
    } else if s.cmd == CMD_PUSH {
      PushSame(cx, q, Seen(s));
      SenderSame(cx, x1, y, x.(peer := Handle(cx, x.peer, Seen(s))));
    } else {
      SenderSame(cx, x1, y, x.(peer := Handle(cx, x.peer, Seen(s))));
    }
  }

  lemma UnaSame(p: Peer, s: Packet)
    ensures var q := HandleUna(p, s);
      q.sndNxt == p.sndNxt && q.rcvNxt == p.rcvNxt && q.rcvBuf == p.rcvBuf && q.rcvQueue == p.rcvQueue && q.acks == p.acks
  {
    hide DropBelow, Unwrap;
  }

  /** One segment from y, as sender of data: the direction from y to x is kept. */
  lemma HandleForward(cx: Config, cy: Config, x: Side, y: Side, s: Packet)
    requires cx.Valid() && cy.Valid() && Ok(cx, x.peer) && Ok(cy, y.peer) && Dir(cy, y, x) && Incoming(cy, x, y, s)
    ensures Dir(cy, y, x.(peer := Handle(cx, x.peer, Seen(s))))
  {
    hide Dir, SendSide, RecvSide, HandleUna, HandlePush, ParseAck, Shrink, Unwrap, Residue, PushOk, AckOk, Stream;
    var q := HandleUna(x.peer, Seen(s));
    var x1 := x.(peer := q);
    UnaSame(x.peer, Seen(s));
    HandleUnaKeeps(cx, x.peer, Seen(s));
    ToldSame(cy, y, x, x1);
    if s.cmd == CMD_PUSH {
      PushForward(cy, cx, y, x1, s);
    } else {
      HandleSame(cx, x.peer, Seen(s));
      ToldSame(cy, y, x1, x.(peer := Handle(cx, x.peer, Seen(s))));
    }
  }

  ghost predicate IncomingAll(cy: Config, x: Side, y: Side, d: seq<Packet>)
    requires cy.Valid()
  {
    forall i :: 0 <= i < |d| ==> Incoming(cy, x, y, d[i])
  }

  lemma {:induction false} HandleAllPair(cx: Config, cy: Config, x: Side, y: Side, d: seq<Packet>)
    requires Pair(cx, cy, x, y) && IncomingAll(cy, x, y, d)
    ensures Pair(cx, cy, x.(peer := HandleAll(cx, x.peer, SeenAll(d))), y)
    decreases |d|
  {
    hide Dir, Handle, Ok, OutOk, PushOk, AckOk, Stream;
    if d != [] {
      var s := d[0];
      var x1 := x.(peer := Handle(cx, x.peer, Seen(s)));
      HandleKeeps(cx, x.peer, Seen(s));
      HandleForward(cx, cy, x, y, s);
      HandleBackward(cx, cy, x, y, s);
      HandleSame(cx, x.peer, Seen(s));
      forall i | 0 <= i < |d[1..]|
        ensures Incoming(cy, x1, y, d[1..][i])
      {
        assert Incoming(cy, x, y, d[i + 1]);
        IncomingSame(cy, x, y, x1, d[i + 1]);
      }
      HandleAllPair(cx, cy, x1, y, d[1..]);
      assert SeenAll(d) == [Seen(s)] + SeenAll(d[1..]);
      assert SeenAll(d)[1..] == SeenAll(d[1..]);
      assert HandleAll(cx, x.peer, SeenAll(d)) == HandleAll(cx, x1.peer, SeenAll(d[1..]));
      assert x.(peer := HandleAll(cx, x.peer, SeenAll(d))) == x1.(peer := HandleAll(cx, x1.peer, SeenAll(d[1..])));
    } else {
      assert x.(peer := HandleAll(cx, x.peer, SeenAll(d))) == x;
    }
  }

  lemma IncomingSame(cy: Config, x: Side, y: Side, x1: Side, s: Packet)
    requires cy.Valid() && Incoming(cy, x, y, s) && x1.peer.sndNxt == x.peer.sndNxt
    ensures Incoming(cy, x1, y, s)
  {
    hide AckOk, PushOk, Stream;
    AckSame(s, y.peer, x.peer.sndNxt, x1.peer.sndNxt);
  }

  lemma AckSame(s: Packet, y: Peer, nxt: int, nxt': int)
    requires AckOk(s, y, nxt) && nxt' == nxt
    ensures AckOk(s, y, nxt')
  {
  }

  lemma DatagramIncoming(cx: Config, cy: Config, x: Side, y: Side, d: seq<Packet>)
    requires Pair(cx, cy, x, y) && d in y.out && Fresh(d, x.peer, y.peer)
    ensures IncomingAll(cy, x, y, d)
  {
    hide Stream, Ok, AckOk, PushOk, Accepted, Sending, Receiving, Delivered, Conserved, PendingOk, FreshFor;
    forall i | 0 <= i < |d|
      ensures Incoming(cy, x, y, d[i])
    {
      assert AckOk(d[i], y.peer, x.peer.sndNxt);
      assert PushOk(d[i], y.peer.sndNxt, Stream(cy.Mss(), y.sent));
      assert PacketOk(cy.conv, d[i]);
      assert FreshFor(d[i], x.peer, y.peer);
    }
  }

  /** The bytes of a datagram of y are taken by ikcp_input of x segment by segment, with result 0. */
  lemma InputIs(cx: Config, cy: Config, x: Side, y: Side, d: seq<Packet>)
    requires Pair(cx, cy, x, y) && d in y.out
    ensures Sendable(d) && Input(cx, x.peer, EncodeAll(d)) == (HandleAll(cx, x.peer, SeenAll(d)), 0)
  {
    hide Dir, Ok, Parse, EncodeAll, HandleAll, SeenAll;
    assert DatagramOk(cy.conv, d);
    forall i | 0 <= i < |d|
      ensures |d[i].data| < HALF && d[i].conv == cx.conv && Known(d[i].cmd)
    {
      assert PacketOk(cy.conv, d[i]);
    }
    RoundTrip(cx.conv, d);
  }

  // ---------------------------------------------------------------- every step, every run

  lemma FlushOut(c: Config, p: Peer, o: Oracle, out: set<seq<Packet>>)
    requires Ok(c, p) && OutOk(c.conv, out)
    ensures OutOk(c.conv, out + SentTogether(c, FlushPackets(c, p, o)))
  {
    hide FlushPackets, SentTogether, Ok;
    forall d | d in SentTogether(c, FlushPackets(c, p, o))
      ensures DatagramOk(c.conv, d)
    {
      FlushDatagram(c, p, o, d);
      forall j | 0 <= j < |d|
        ensures PacketOk(c.conv, d[j])
      {
        var i :| 0 <= i < |FlushPackets(c, p, o)| && FlushPackets(c, p, o)[i] == d[j];
        FlushSegment(c, p, o, i);
      }
    }
  }

  /** Any step of one side keeps the invariant of the link. */
  lemma StepKeeps(cx: Config, cy: Config, x: Side, y: Side, x': Side, s: Step)
    requires Pair(cx, cy, x, y) && Moves(cx, x, y, x', s)
    ensures Pair(cx, cy, x', y)
  {
    hide Dir, Ok, OutOk, Send, Recv, Flush, Input, FlushPackets, SentTogether;
    match s
    case SendStep(msg) =>
      SendKeeps(cx, x.peer, msg);
      SendSteps(cx, cy, x, y, x', msg);
    case RecvStep(len) =>
      RecvKeeps(cx, x.peer, len);
      RecvForward(cy, cx, y, x, x', len);
      RecvSame(cx, x.peer, len);
      SenderSame(cx, x, y, x');
    case FlushStep(o) =>
      FlushKeeps(cx, x.peer, o);
      FlushForward(cx, x, y, x', o);
      FlushBackward(cy, cx, y, x, x', o);
      FlushOut(cx, x.peer, o, x.out);
    case DeliverStep(d) =>
      DatagramIncoming(cx, cy, x, y, d);
      HandleAllPair(cx, cy, x, y, d);
      InputIs(cx, cy, x, y, d);
  }

  lemma SendSteps(cx: Config, cy: Config, x: Side, y: Side, x': Side, msg: seq<Byte>)
    requires cx.Valid() && cy.Valid() && Dir(cx, x, y) && Dir(cy, y, x) && Moves(cx, x, y, x', SendStep(msg))
    ensures Dir(cx, x', y) && Dir(cy, y, x')
  {
    hide Dir, Fragments, Count;
    if Count(cx.Mss(), |msg|) < WND_RCV {
      SendForward(cx, x, y, msg);
      ToldSame(cy, y, x, x');
    }
  }

  lemma RecvSame(c: Config, p: Peer, len: int)
    ensures var q := Recv(c, p, len).peer; q.sndNxt == p.sndNxt && q.sndBuf == p.sndBuf && q.sndQueue == p.sndQueue
  {
    hide MoveReady, PeekSize, Merge, Span;
    MoveReadySends(c, if len < 0 then p else p.(rcvQueue := p.rcvQueue[Span(p.rcvQueue)..]));
  }

  function Start(): Side
  {
    Side(KcpQueues.Fresh(), {}, [], [])
  }

  lemma StartPair(cx: Config, cy: Config)
    requires cx.Valid() && cy.Valid() && cx.conv == cy.conv
    ensures Pair(cx, cy, Start(), Start())
  {
    hide Ok, Dir;
    FreshIsOk(cx);
    FreshIsOk(cy);
    StartDir(cx);
    StartDir(cy);
  }

  lemma StartDir(c: Config)
    requires c.Valid()
    ensures Dir(c, Start(), Start())
  {
  }

  ghost predicate LinkStep(ca: Config, cb: Config, l: Link, l': Link)
    requires ca.Valid() && cb.Valid()
  {
    || (l'.b == l.b && exists s :: Moves(ca, l.a, l.b, l'.a, s))
    || (l'.a == l.a && exists s :: Moves(cb, l.b, l.a, l'.b, s))
  }

  /** A run of the link from two fresh endpoints. */
  ghost predicate Run(ca: Config, cb: Config, ls: seq<Link>)
    requires ca.Valid() && cb.Valid()
  {
    && ls != [] && ls[0] == Link(Start(), Start())
    && forall i :: 0 <= i < |ls| - 1 ==> LinkStep(ca, cb, ls[i], ls[i + 1])
  }

  lemma {:induction false} RunKeeps(ca: Config, cb: Config, ls: seq<Link>)
    requires ca.Valid() && cb.Valid() && ca.conv == cb.conv && Run(ca, cb, ls)
    ensures Pair(ca, cb, ls[|ls| - 1].a, ls[|ls| - 1].b)
  {
    hide Pair, Moves;
    var last := |ls| - 1;
    if last == 0 {
      StartPair(ca, cb);
    } else {
      var before := ls[..last];
      forall i | 0 <= i < last - 1
        ensures LinkStep(ca, cb, before[i], before[i + 1])
      {
        assert LinkStep(ca, cb, ls[i], ls[i + 1]);
      }
      RunKeeps(ca, cb, before);
      LinkKeeps(ca, cb, ls[last - 1], ls[last]);
    }
  }

  lemma LinkKeeps(ca: Config, cb: Config, l: Link, l': Link)
    requires ca.Valid() && cb.Valid() && Pair(ca, cb, l.a, l.b) && LinkStep(ca, cb, l, l')
    ensures Pair(ca, cb, l'.a, l'.b)
  {
    hide Moves, Dir, SideInv;
    if l'.b == l.b && exists s :: Moves(ca, l.a, l.b, l'.a, s) {
      var s :| Moves(ca, l.a, l.b, l'.a, s);
      StepKeeps(ca, cb, l.a, l.b, l'.a, s);
    } else {
      var s :| Moves(cb, l.b, l.a, l'.b, s);
      StepKeeps(cb, ca, l.b, l.a, l'.b, s);
    }
  }

  /** End to end: whatever the network does, each user has received a prefix of what the other
   * user sent, message by message and byte for byte. */
  lemma EndToEnd(ca: Config, cb: Config, ls: seq<Link>)
    requires ca.Valid() && cb.Valid() && ca.conv == cb.conv && Run(ca, cb, ls)
    ensures ls[|ls| - 1].b.got <= ls[|ls| - 1].a.sent
    ensures ls[|ls| - 1].a.got <= ls[|ls| - 1].b.sent
  {
    hide Sending, Receiving, Conserved, AcksOk, PushesOk, PendingOk, Accepted, Run, Stream;
    RunKeeps(ca, cb, ls);
  }

  /** Conservation: a step that takes a segment out of the send buffer finds it at the receiver,
   * so every number in use is at the sender or at the receiver. */
  lemma NothingLost(cx: Config, cy: Config, x: Side, y: Side, x': Side, s: Step, sn: int)
    requires Pair(cx, cy, x, y) && Moves(cx, x, y, x', s)
    requires HasSn(x.peer.sndBuf, sn) && !HasSn(x'.peer.sndBuf, sn)
    ensures Holds(y.peer, sn)
  {
    hide Moves, Sending, Receiving, Delivered, AcksOk, PushesOk, PendingOk, Accepted, Stream, HasSn, Holds;
    StepKeeps(cx, cy, x, y, x', s);
    SnInside(cx, x.peer, sn);
    NumbersStay(cx, x, y, x', s);
    assert Conserved(x'.peer, y.peer);
  }

  lemma NumbersStay(c: Config, x: Side, y: Side, x': Side, s: Step)
    requires c.Valid() && Moves(c, x, y, x', s)
    ensures x.peer.sndNxt <= x'.peer.sndNxt
  {
    hide Recv, Parse, HandleAll, EncodeAll, Fragments;
    match s
    case SendStep(msg) =>
    case RecvStep(len) => RecvSame(c, x.peer, len);
    case FlushStep(o) =>
    case DeliverStep(d) => HandleAllSame(c, x.peer, Parse(c.conv, EncodeAll(d)).segments);
  }

  lemma {:induction false} HandleAllSame(c: Config, p: Peer, ss: seq<Packet>)
    ensures HandleAll(c, p, ss).sndNxt == p.sndNxt
    decreases |ss|
  {
    hide Handle;
    if ss != [] {
      HandleSame(c, p, ss[0]);
      HandleAllSame(c, Handle(c, p, ss[0]), ss[1..]);
    }
  }

  /** A full receive queue always holds a complete message, so a user who offers enough room gets
   * the next message and the receiver never wedges. */
  lemma NeverWedged(cx: Config, cy: Config, x: Side, y: Side, len: nat)
    requires Pair(cx, cy, x, y) && |y.peer.rcvQueue| >= cy.rcvWnd
    ensures |y.got| < |x.sent|
    ensures |x.sent[|y.got|]| <= len ==> Recv(cy, y.peer, len).result == |x.sent[|y.got|]|
    ensures PeekSize(y.peer.rcvQueue) == |x.sent[|y.got|]|
  {
    hide Ok, Fragments, PeekSize, Recv, OutOk;
    hide Sending, Receiving, Conserved, AcksOk, PushesOk, PendingOk, Stream;
    RecvMeans(cx, cy, x, y, len);
    NextMessage(cx, x, y);
    PeekHead(cx.Mss(), y.peer.rcvQueue, x.sent[|y.got|]);
  }

  /** When the sender has nothing left and the receiver's buffer and queue are empty, every
   * accepted message has been received. */
  lemma AllDelivered(cx: Config, cy: Config, x: Side, y: Side)
    requires Pair(cx, cy, x, y) && x.peer.sndQueue == [] && x.peer.sndBuf == []
    requires y.peer.rcvQueue == [] && y.peer.rcvBuf == []
    ensures y.got == x.sent
  {
    hide Ok, OutOk, AcksOk, PushesOk, PendingOk, Accepted, Stream;
    var st := Stream(cx.Mss(), x.sent);
    assert 0 <= y.peer.rcvNxt < x.peer.sndNxt ==> Holds(y.peer, y.peer.rcvNxt) || HasSn(x.peer.sndBuf, y.peer.rcvNxt);
    assert y.got == x.sent[..|y.got|] && x.sent[..|x.sent|] == x.sent;
    assert |st[x.peer.sndNxt..]| == 0;
    StreamPrefix(cx.Mss(), x.sent, |y.got|);
  }
}
