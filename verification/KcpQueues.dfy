/**
 * The queue invariants of one KCP endpoint. They hold at first and are kept by every operation,
 * for every message, every buffer length, every timer decision and every input datagram, also a
 * malformed or forged one.
 */
module KcpQueues {
  import opened Bytes
  import opened KcpWire
  import opened Kcp

  ghost predicate Small(c: Config, segs: seq<Segment>)
  {
    forall i :: 0 <= i < |segs| ==> |segs[i].data| <= c.Mss()
  }

  ghost predicate SmallEntries(c: Config, buf: seq<Entry>)
  {
    forall i :: 0 <= i < |buf| ==> |buf[i].seg.data| <= c.Mss()
  }

  /** The send buffer is sorted inside [snd_una, snd_nxt), which never exceeds the send window. */
  ghost predicate SendSide(c: Config, p: Peer)
  {
    && 0 <= p.sndUna <= p.sndNxt <= p.sndUna + c.sndWnd
    && Sorted(p.sndBuf) && Within(p.sndBuf, p.sndUna, p.sndNxt)
    && p.sndUna == (if p.sndBuf == [] then p.sndNxt else p.sndBuf[0].sn)
    && Small(c, p.sndQueue) && SmallEntries(c, p.sndBuf)
  }

  /** The receive buffer is sorted inside the receive window; the receive queue fits the window,
   * and is full if the next segment has to wait in the buffer. */
  ghost predicate RecvSide(c: Config, p: Peer)
  {
    && 0 <= p.rcvNxt
    && Sorted(p.rcvBuf) && Within(p.rcvBuf, p.rcvNxt, p.rcvNxt + c.rcvWnd)
    && |p.rcvQueue| <= c.rcvWnd
    && (HasSn(p.rcvBuf, p.rcvNxt) ==> |p.rcvQueue| == c.rcvWnd)
  }

  ghost predicate Ok(c: Config, p: Peer)
  {
    c.Valid() && SendSide(c, p) && RecvSide(c, p)
  }

  function Fresh(): Peer
  {
    Peer(0, 0, 0, WND_RCV, [], [], [], [], [], false)
  }

  lemma FreshIsOk(c: Config)
    requires c.Valid()
    ensures Ok(c, Fresh())
  {
  }

  /** A sorted buffer inside a window is no longer than the window. */
  lemma {:induction false} SortedLength(buf: seq<Entry>, lo: int, hi: int)
    requires Sorted(buf) && Within(buf, lo, hi) && lo <= hi
    ensures |buf| <= hi - lo
  {
    if buf != [] {
      var last := |buf| - 1;
      SortedLength(buf[..last], lo, buf[last].sn);
    }
  }

  /** Neither buffer outgrows its window. */
  lemma BuffersBounded(c: Config, p: Peer)
    requires Ok(c, p)
    ensures |p.sndBuf| <= c.sndWnd && |p.rcvBuf| <= c.rcvWnd && |p.rcvQueue| <= c.rcvWnd
  {
    SortedLength(p.sndBuf, p.sndUna, p.sndNxt);
    SortedLength(p.rcvBuf, p.rcvNxt, p.rcvNxt + c.rcvWnd);
  }

  // ---------------------------------------------------------------- sending

  lemma SendKeeps(c: Config, p: Peer, msg: seq<Byte>)
    requires Ok(c, p)
    ensures Ok(c, Send(c, p, msg).0)
  {
    hide RecvSide;
    FragmentsMerge(c.Mss(), msg);
    SameReceiver(c, p, Send(c, p, msg).0);
  }

  lemma AppendNumbered(c: Config, p: Peer, n: nat)
    requires SendSide(c, p) && n <= |p.sndQueue| && (0 < n ==> p.sndNxt + n <= p.sndUna + c.sndWnd)
    ensures SendSide(c, Admit(p, n))
  {
    hide Sorted;
    var q := Admit(p, n);
    forall i, j | 0 <= i < j < |q.sndBuf|
      ensures q.sndBuf[i].sn < q.sndBuf[j].sn
    {
      if j < |p.sndBuf| {
        SortedAt(p.sndBuf, i, j);
      }
    }
    SortedIf(q.sndBuf);
    var more := Numbered(p.sndQueue[..n], p.sndNxt);
    forall i | 0 <= i < |q.sndBuf|
      ensures q.sndUna <= q.sndBuf[i].sn < q.sndNxt && |q.sndBuf[i].seg.data| <= c.Mss()
    {
      if i >= |p.sndBuf| {
        assert q.sndBuf[i] == more[i - |p.sndBuf|];
      }
    }
    if p.sndBuf == [] && n > 0 {
      assert q.sndBuf[0] == more[0];
    }
  }

  lemma SortedAt(buf: seq<Entry>, i: nat, j: nat)
    requires Sorted(buf) && i < j < |buf|
    ensures buf[i].sn < buf[j].sn
  {
  }

  lemma SortedIf(buf: seq<Entry>)
    requires forall i, j :: 0 <= i < j < |buf| ==> buf[i].sn < buf[j].sn
    ensures Sorted(buf)
  {
  }

  lemma FlushKeeps(c: Config, p: Peer, o: Oracle)
    requires Ok(c, p)
    ensures Ok(c, Flush(c, p, o))
  {
    hide RecvSide;
    var q := Admit(p, AdmitCount(c, p, o));
    AppendNumbered(c, p, AdmitCount(c, p, o));
    SentKeeps(c, q, o);
    SameReceiver(c, p, Flush(c, p, o));
  }

  lemma SentKeeps(c: Config, q: Peer, o: Oracle)
    requires SendSide(c, q)
    ensures SendSide(c, q.(acks := [], tell := false, sndBuf := MarkSent(q.sndBuf, o)))
  {
  }

  lemma SameReceiver(c: Config, p: Peer, q: Peer)
    requires RecvSide(c, p) && q.rcvNxt == p.rcvNxt && q.rcvBuf == p.rcvBuf && q.rcvQueue == p.rcvQueue
    ensures RecvSide(c, q)
  {
  }

  lemma SameSender(c: Config, p: Peer, q: Peer)
    requires SendSide(c, p)
    requires q.sndUna == p.sndUna && q.sndNxt == p.sndNxt && q.sndQueue == p.sndQueue && q.sndBuf == p.sndBuf
    ensures SendSide(c, q)
  {
  }

  // ---------------------------------------------------------------- receiving

  /** The part of RecvSide that holds before ready segments are moved. */
  ghost predicate Arrived(c: Config, p: Peer)
  {
    && 0 <= p.rcvNxt
    && Sorted(p.rcvBuf) && Within(p.rcvBuf, p.rcvNxt, p.rcvNxt + c.rcvWnd)
    && |p.rcvQueue| <= c.rcvWnd
  }

  /** Everything the receiver has got: passed on in order, or waiting in the buffer. */
  ghost predicate Holds(p: Peer, sn: int)
  {
    0 <= sn < p.rcvNxt || HasSn(p.rcvBuf, sn)
  }

  lemma NextIsFirst(c: Config, p: Peer)
    requires c.Valid() && Arrived(c, p)
    ensures HasSn(p.rcvBuf, p.rcvNxt) <==> p.rcvBuf != [] && Residue(p.rcvBuf[0].sn) == Residue(p.rcvNxt)
    ensures p.rcvBuf != [] && Residue(p.rcvBuf[0].sn) == Residue(p.rcvNxt) ==> p.rcvBuf[0].sn == p.rcvNxt
  {
    hide Residue;
    if p.rcvBuf != [] && p.rcvBuf[0].sn != p.rcvNxt {
      ResidueDistinct(p.rcvBuf[0].sn, p.rcvNxt);
    }
  }

  /** Moving ready segments establishes the invariant and loses nothing. */
  lemma {:induction false} MoveReadyKeeps(c: Config, p: Peer, sn: int)
    requires c.Valid() && Arrived(c, p)
    ensures var r := MoveReady(c, p);
      && RecvSide(c, r)
      && (Holds(p, sn) <==> Holds(r, sn))
      && p.rcvNxt <= r.rcvNxt && r.rcvNxt - |r.rcvQueue| == p.rcvNxt - |p.rcvQueue|
      && r == p.(rcvNxt := r.rcvNxt, rcvBuf := r.rcvBuf, rcvQueue := r.rcvQueue)
    decreases |p.rcvBuf|
  {
    hide Residue, HasSn, Sorted;
    NextIsFirst(c, p);
    if p.rcvBuf != [] && Residue(p.rcvBuf[0].sn) == Residue(p.rcvNxt) && |p.rcvQueue| < c.rcvWnd {
      var q := p.(rcvBuf := p.rcvBuf[1..], rcvQueue := p.rcvQueue + [p.rcvBuf[0].seg], rcvNxt := p.rcvNxt + 1);
      MovedOne(c, p, sn);
      MoveReadyKeeps(c, q, sn);
    }
  }

  lemma MovedOne(c: Config, p: Peer, sn: int)
    requires c.Valid() && Arrived(c, p) && p.rcvBuf != [] && p.rcvBuf[0].sn == p.rcvNxt && |p.rcvQueue| < c.rcvWnd
    ensures var q := p.(rcvBuf := p.rcvBuf[1..], rcvQueue := p.rcvQueue + [p.rcvBuf[0].seg], rcvNxt := p.rcvNxt + 1);
      Arrived(c, q) && (Holds(p, sn) <==> Holds(q, sn))
  {
    hide HasSn;
    HasSnSplit(p.rcvBuf, sn);
  }

  lemma RecvKeeps(c: Config, p: Peer, len: int)
    requires Ok(c, p)
    ensures Ok(c, Recv(c, p, len).peer)
  {
    hide Sorted, Within, HasSn, MoveReady, PeekSize, Merge, Small, SmallEntries;
    var n := Span(p.rcvQueue);
    var taken := if len < 0 then p else p.(rcvQueue := p.rcvQueue[n..]);
    MoveReadyKeeps(c, taken, 0);
  }

  // ---------------------------------------------------------------- input

  lemma ShrinkKeeps(c: Config, p: Peer, buf: seq<Entry>)
    requires SendSide(c, p) && Sorted(buf) && Kept(buf, p.sndBuf)
    ensures SendSide(c, Shrink(p.(sndBuf := buf)))
    ensures Shrink(p.(sndBuf := buf)).sndUna >= p.sndUna
  {
    hide Sorted;
    forall i | 0 <= i < |buf|
      ensures p.sndUna <= buf[i].sn < p.sndNxt && |buf[i].seg.data| <= c.Mss() && buf[0].sn <= buf[i].sn
    {
      assert buf[i] in p.sndBuf;
      if i > 0 {
        SortedAt(buf, 0, i);
      }
    }
    if buf != [] {
      assert buf[0] in p.sndBuf;
    }
  }

  lemma HandleUnaKeeps(c: Config, p: Peer, s: Packet)
    requires Ok(c, p)
    ensures Ok(c, HandleUna(p, s))
  {
    hide DropBelow, Unwrap, Sorted, Kept, SendSide, RecvSide;
    var una := Unwrap(s.una, p.sndNxt);
    assert Sorted(p.sndBuf) by {
      SendSorted(c, p);
    }
    DropBelowKeeps(p.sndBuf, una);
    SameSender(c, p, p.(rmtWnd := s.wnd));
    ShrinkKeeps(c, p.(rmtWnd := s.wnd), DropBelow(p.sndBuf, una));
    SameReceiver(c, p, HandleUna(p, s));
  }

  lemma SendSorted(c: Config, p: Peer)
    requires SendSide(c, p)
    ensures Sorted(p.sndBuf) && Within(p.sndBuf, p.sndUna, p.sndNxt)
  {
  }

  lemma HandleAckKeeps(c: Config, p: Peer, sn: int)
    requires Ok(c, p)
    ensures Ok(c, Shrink(ParseAck(p, sn)))
  {
    hide RemoveSn, TimeDiff, Sorted, Kept, SendSide, RecvSide;
    SendSorted(c, p);
    RemoveSnKeeps(p.sndBuf, sn);
    SelfKept(p.sndBuf);
    ShrinkKeeps(c, p, ParseAck(p, sn).sndBuf);
    SameReceiver(c, p, Shrink(ParseAck(p, sn)));
  }

  /** A pushed segment inside the window joins the buffer, whatever 32-bit number it carries. */
  lemma InsertArrives(c: Config, p: Peer, e: Entry)
    requires c.Valid() && Arrived(c, p) && p.rcvNxt <= e.sn < p.rcvNxt + c.rcvWnd
    ensures Arrived(c, p.(rcvBuf := Insert(p.rcvBuf, e)))
  {
    hide Insert;
    InsertSorted(p.rcvBuf, e);
    var r := Insert(p.rcvBuf, e);
    forall i | 0 <= i < |r|
      ensures p.rcvNxt <= r[i].sn < p.rcvNxt + c.rcvWnd
    {
      assert r[i] in p.rcvBuf + [e];
    }
  }

  /** ParseData in plain comparisons: a number unwrapped next to rcv_nxt makes both 32-bit tests exact. */
  lemma ParseDataPlain(c: Config, p: Peer, e: Entry)
    requires c.Valid() && -HALF <= e.sn - p.rcvNxt < HALF && TimeDiff(e.sn, p.rcvNxt) >= 0
    ensures ParseData(c, p, e) ==
      if p.rcvNxt <= e.sn < p.rcvNxt + c.rcvWnd then MoveReady(c, p.(rcvBuf := Insert(p.rcvBuf, e))) else p
  {
    hide TimeDiff, Insert, MoveReady;
    TimeDiffExact(e.sn, p.rcvNxt);
    TimeDiffExact(e.sn, p.rcvNxt + c.rcvWnd);
  }

  lemma HandlePushKeeps(c: Config, p: Peer, s: Packet)
    requires Ok(c, p)
    ensures Ok(c, HandlePush(c, p, s))
  {
    hide TimeDiff, Unwrap, Insert, MoveReady, SendSide;
    hide Sorted, Within, HasSn;
    var sn := Unwrap(s.sn, p.rcvNxt);
    var q := p.(acks := p.acks + [Ack(sn, s.ts)]);
    var e := Entry(sn, Segment(s.frg, s.data), 0);
    SameSender(c, p, q);
    if TimeDiff(sn, p.rcvNxt + c.rcvWnd) < 0 && TimeDiff(sn, p.rcvNxt) >= 0 {
      hide ParseData;
      ParseDataPlain(c, q, e);
      if p.rcvNxt <= sn < p.rcvNxt + c.rcvWnd {
        InsertArrives(c, q, e);
        MoveReadyKeeps(c, q.(rcvBuf := Insert(q.rcvBuf, e)), 0);
        SameSender(c, q, ParseData(c, q, e));
      }
    }
  }

  lemma HandleKeeps(c: Config, p: Peer, s: Packet)
    requires Ok(c, p)
    ensures Ok(c, Handle(c, p, s))
  {
    hide SendSide, RecvSide, HandleUna, HandlePush, ParseAck, Shrink, Unwrap;
    var q := HandleUna(p, s);
    HandleUnaKeeps(c, p, s);
    if s.cmd == CMD_ACK {
      HandleAckKeeps(c, q, Unwrap(s.sn, q.sndNxt));
    } else if s.cmd == CMD_PUSH {
      HandlePushKeeps(c, q, s);
    } else {
      SameSender(c, q, Handle(c, p, s));
      SameReceiver(c, q, Handle(c, p, s));
    }
  }

  lemma {:induction false} HandleAllKeeps(c: Config, p: Peer, ss: seq<Packet>)
    requires Ok(c, p)
    ensures Ok(c, HandleAll(c, p, ss))
    decreases |ss|
  {
    hide Ok, Handle;
    if ss != [] {
      HandleKeeps(c, p, ss[0]);
      HandleAllKeeps(c, Handle(c, p, ss[0]), ss[1..]);
    }
  }

  /** No datagram, well-formed or not, breaks the queue invariants. */
  lemma InputKeeps(c: Config, p: Peer, data: seq<Byte>)
    requires Ok(c, p)
    ensures Ok(c, Input(c, p, data).0)
  {
    hide Ok, Parse, HandleAll;
    HandleAllKeeps(c, p, Parse(c.conv, data).segments);
  }
}
