/**
 * What each KCP operation does to the state of one endpoint, as functions on values, and the
 * queue invariants that every operation keeps for any input whatsoever. Sequence numbers are
 * unbounded and compared as the source compares their 32-bit residues. Timers, round-trip
 * estimates and the congestion window enter ikcp_flush as an oracle.
 */
module Kcp {
  import opened Bytes
  import opened KcpWire
  import opened Numbers

  const WND_RCV: nat := 128
  const WINDOW_LIMIT: nat := 0x1000_0000

  datatype Config = Config(conv: U32, mtu: nat, sndWnd: nat, rcvWnd: nat) {
    /** What ikcp_setmtu and ikcp_wndsize accept, with windows small against the number space. */
    predicate Valid()
    {
      50 <= mtu < HALF && 0 < sndWnd < WINDOW_LIMIT && WND_RCV <= rcvWnd < WINDOW_LIMIT
    }

    function Mss(): int
    {
      mtu - OVERHEAD
    }
  }

  /** A fragment of a message: frg more fragments follow it. */
  datatype Segment = Segment(frg: nat, data: seq<Byte>)
  datatype Entry = Entry(sn: int, seg: Segment, xmit: nat)
  datatype Ack = Ack(sn: int, ts: U32)

  datatype Peer = Peer(sndUna: int, sndNxt: int, rcvNxt: int, rmtWnd: U16,
    sndQueue: seq<Segment>, sndBuf: seq<Entry>, rcvBuf: seq<Entry>, rcvQueue: seq<Segment>, acks: seq<Ack>, tell: bool)

  // ---------------------------------------------------------------- sorted buffers

  ghost predicate Sorted(buf: seq<Entry>)
  {
    forall i, j :: 0 <= i < j < |buf| ==> buf[i].sn < buf[j].sn
  }

  ghost predicate Within(buf: seq<Entry>, lo: int, hi: int)
  {
    forall i :: 0 <= i < |buf| ==> lo <= buf[i].sn < hi
  }

  ghost predicate HasSn(buf: seq<Entry>, sn: int)
  {
    exists i :: 0 <= i < |buf| && buf[i].sn == sn
  }

  /** ikcp_parse_una: drop entries from the front while they are below una. */
  function DropBelow(buf: seq<Entry>, una: int): (r: seq<Entry>)
  {
    if buf != [] && TimeDiff(una, buf[0].sn) > 0 then DropBelow(buf[1..], una) else buf
  }

  /** The loop of ikcp_parse_ack. */
  function RemoveSn(buf: seq<Entry>, sn: int): (r: seq<Entry>)
  {
    if buf == [] then []
    else if Residue(sn) == Residue(buf[0].sn) then buf[1..]
    else if TimeDiff(sn, buf[0].sn) < 0 then buf
    else [buf[0]] + RemoveSn(buf[1..], sn)
  }

  /** The search from the back and the insertion of ikcp_parse_data. */
  function Insert(buf: seq<Entry>, e: Entry): (r: seq<Entry>)
  {
    if buf == [] then [e]
    else
      var last := |buf| - 1;
      if Residue(buf[last].sn) == Residue(e.sn) then buf
      else if TimeDiff(e.sn, buf[last].sn) > 0 then buf + [e]
      else Insert(buf[..last], e) + [buf[last]]
  }

  /** Every entry of r is an entry of buf. */
  ghost predicate Kept(r: seq<Entry>, buf: seq<Entry>)
  {
    forall i :: 0 <= i < |r| ==> r[i] in buf
  }

  lemma {:induction false} DropBelowKeeps(buf: seq<Entry>, una: int)
    requires Sorted(buf)
    ensures var r := DropBelow(buf, una); Sorted(r) && Kept(r, buf) && |r| <= |buf|
  {
    if buf != [] && TimeDiff(una, buf[0].sn) > 0 {
      DropBelowKeeps(buf[1..], una);
    }
  }

  /** Inside the number window exactly the entries below una go. */
  lemma {:induction false} DropBelowExact(buf: seq<Entry>, una: int, sn: int)
    requires Sorted(buf) && Within(buf, una - HALF + 1, una + HALF)
    ensures HasSn(DropBelow(buf, una), sn) <==> HasSn(buf, sn) && sn >= una
  {
    hide TimeDiff;
    if buf != [] {
      TimeDiffExact(una, buf[0].sn);
      if una > buf[0].sn {
        DropBelowExact(buf[1..], una, sn);
        assert HasSn(buf[1..], sn) ==> HasSn(buf, sn) by {
          assert forall i :: 0 <= i < |buf| - 1 ==> buf[1..][i] == buf[i + 1];
        }
        if HasSn(buf, sn) && sn >= una {
          var i :| 0 <= i < |buf| && buf[i].sn == sn;
          assert buf[1..][i - 1].sn == sn;
        }
      }
    }
  }

  lemma {:induction false} RemoveSnKeeps(buf: seq<Entry>, sn: int)
    requires Sorted(buf)
    ensures var r := RemoveSn(buf, sn); Sorted(r) && Kept(r, buf) && |r| <= |buf|
  {
    hide TimeDiff, Residue, Sorted, Kept;
    if buf != [] {
      TailSorted(buf);
      RemoveSnKeeps(buf[1..], sn);
      ConsSorted(buf, RemoveSn(buf[1..], sn));
    }
    assert Sorted(buf) && Kept(buf, buf) by {
      SelfKept(buf);
    }
  }

  lemma SelfKept(buf: seq<Entry>)
    ensures Kept(buf, buf)
  {
  }

  lemma TailSorted(buf: seq<Entry>)
    requires Sorted(buf) && buf != []
    ensures Sorted(buf[1..]) && Kept(buf[1..], buf)
  {
  }

  lemma ConsSorted(buf: seq<Entry>, r: seq<Entry>)
    requires Sorted(buf) && buf != [] && Sorted(r) && Kept(r, buf[1..])
    ensures Sorted([buf[0]] + r) && Kept([buf[0]] + r, buf) && Kept(r, buf)
  {
    forall i | 0 <= i < |r|
      ensures buf[0].sn < r[i].sn && r[i] in buf
    {
      var k :| 0 <= k < |buf| - 1 && buf[1..][k] == r[i];
      assert r[i] == buf[k + 1];
    }
  }

  lemma ResidueDistinct(a: int, b: int)
    requires -HALF <= a - b < HALF && a != b
    ensures Residue(a) != Residue(b)
  {
  }

  /** Inside the number window exactly the acknowledged entry goes. */
  lemma {:induction false} RemoveSnExact(buf: seq<Entry>, sn: int, other: int)
    requires Sorted(buf) && Within(buf, sn - HALF + 1, sn + HALF)
    ensures HasSn(RemoveSn(buf, sn), other) <==> HasSn(buf, other) && other != sn
  {
    hide TimeDiff, Residue;
    if buf != [] {
      var head, tail := buf[0], buf[1..];
      HasSnSplit(buf, other);
      if sn == head.sn {
      } else {
        ResidueDistinct(sn, head.sn);
        TimeDiffExact(sn, head.sn);
        if sn > head.sn {
          RemoveSnExact(tail, sn, other);
          HasSnSplit([head] + RemoveSn(tail, sn), other);
          assert ([head] + RemoveSn(tail, sn))[1..] == RemoveSn(tail, sn);
        }
      }
    }
  }

  lemma HasSnSplit(buf: seq<Entry>, sn: int)
    requires buf != []
    ensures HasSn(buf, sn) <==> buf[0].sn == sn || HasSn(buf[1..], sn)
  {
    assert forall i :: 0 <= i < |buf| - 1 ==> buf[1..][i] == buf[i + 1];
    if HasSn(buf, sn) && buf[0].sn != sn {
      var i :| 0 <= i < |buf| && buf[i].sn == sn;
      assert buf[1..][i - 1].sn == sn;
    }
  }

  lemma HasSnLast(buf: seq<Entry>, e: Entry, sn: int)
    ensures HasSn(buf + [e], sn) <==> e.sn == sn || HasSn(buf, sn)
  {
    assert (buf + [e])[|buf|] == e;
    assert forall i :: 0 <= i < |buf| ==> (buf + [e])[i] == buf[i];
  }

  /** Insertion keeps the buffer sorted, keeps what is there and adds at most the new entry. */
  lemma {:induction false} InsertSorted(buf: seq<Entry>, e: Entry)
    requires Sorted(buf) && Within(buf, e.sn - HALF + 1, e.sn + HALF)
    ensures var r := Insert(buf, e);
      Sorted(r) && |r| <= |buf| + 1 && Kept(r, buf + [e]) && HasSn(r, e.sn)
    ensures HasSn(buf, e.sn) ==> Insert(buf, e) == buf
  {
    hide TimeDiff, Residue, Sorted, Kept, HasSn;
    if buf != [] {
      var last := |buf| - 1;
      var init := buf[..last];
      InsertStep(buf, e);
      assert buf == init + [buf[last]];
      HasSnLast(init, buf[last], e.sn);
      if buf[last].sn > e.sn {
        SortedInit(buf, e.sn);
        InsertSorted(init, e);
        InsertBefore(init, buf[last], Insert(init, e), e);
        HasSnLast(Insert(init, e), buf[last], e.sn);
      } else if buf[last].sn == e.sn {
        SameKept(buf, e);
      } else {
        InsertAtEnd(buf, e);
        HasSnLast(buf, e, e.sn);
      }
    } else {
      InsertFirst(e);
    }
  }

  lemma InsertStep(buf: seq<Entry>, e: Entry)
    requires buf != [] && Within(buf, e.sn - HALF + 1, e.sn + HALF)
    ensures var last := |buf| - 1;
      Insert(buf, e) == if buf[last].sn == e.sn then buf else if e.sn > buf[last].sn then buf + [e]
                        else Insert(buf[..last], e) + [buf[last]]
  {
    hide TimeDiff, Residue;
    var last := |buf| - 1;
    if buf[last].sn != e.sn {
      ResidueDistinct(buf[last].sn, e.sn);
      TimeDiffExact(e.sn, buf[last].sn);
    }
  }

  lemma SortedInit(buf: seq<Entry>, sn: int)
    requires buf != [] && Sorted(buf) && Within(buf, sn - HALF + 1, sn + HALF)
    ensures var init := buf[..|buf| - 1]; Sorted(init) && Within(init, sn - HALF + 1, sn + HALF)
  {
  }

  lemma SameKept(buf: seq<Entry>, e: Entry)
    ensures Kept(buf, buf + [e])
  {
    assert forall i :: 0 <= i < |buf| ==> (buf + [e])[i] == buf[i];
  }

  lemma InsertFirst(e: Entry)
    ensures Insert([], e) == [e] && Sorted([e]) && Kept([e], [] + [e]) && HasSn([e], e.sn) && !HasSn([], e.sn)
  {
    assert [e][0].sn == e.sn && [] + [e] == [e];
  }

  lemma InsertAtEnd(buf: seq<Entry>, e: Entry)
    requires buf != [] && Sorted(buf) && buf[|buf| - 1].sn < e.sn
    ensures Sorted(buf + [e]) && Kept(buf + [e], buf + [e]) && !HasSn(buf, e.sn)
  {
  }

  lemma InsertBefore(init: seq<Entry>, last: Entry, r: seq<Entry>, e: Entry)
    requires Sorted(init + [last]) && Sorted(r) && Kept(r, init + [e]) && e.sn < last.sn
    ensures Sorted(r + [last]) && Kept(r + [last], (init + [last]) + [e])
  {
    var all := (init + [last]) + [e];
    assert all[|init|] == last && all[|init| + 1] == e;
    assert forall i :: 0 <= i < |init| ==> (init + [last])[i] == init[i] && all[i] == init[i];
    assert (init + [last])[|init|] == last;
  }

  lemma {:induction false} InsertKeeps(buf: seq<Entry>, e: Entry, sn: int)
    requires HasSn(buf, sn)
    ensures HasSn(Insert(buf, e), sn)
  {
    hide TimeDiff, Residue;
    var last := |buf| - 1;
    var init := buf[..last];
    assert buf == init + [buf[last]];
    HasSnLast(init, buf[last], sn);
    HasSnLast(buf, e, sn);
    HasSnLast(Insert(init, e), buf[last], sn);
    if HasSn(init, sn) {
      InsertKeeps(init, e, sn);
    }
  }

  // ---------------------------------------------------------------- sending

  /** The fragments of a message, the last one numbered 0. */
  function Fragments(mss: nat, msg: seq<Byte>): (r: seq<Segment>)
    requires 0 < mss
    ensures 0 < |r|
  {
    if |msg| <= mss then [Segment(0, msg)]
    else
      var rest := Fragments(mss, msg[mss..]);
      [Segment(|rest|, msg[..mss])] + rest
  }

  function Merge(segs: seq<Segment>): (r: seq<Byte>)
  {
    if segs == [] then [] else segs[0].data + Merge(segs[1..])
  }

  /** Reassembly undoes fragmentation; fragments count down to 0 and fit the segment size. */
  lemma {:induction false} FragmentsMerge(mss: nat, msg: seq<Byte>)
    requires 0 < mss
    ensures Merge(Fragments(mss, msg)) == msg
    ensures forall i :: 0 <= i < |Fragments(mss, msg)| ==>
      Fragments(mss, msg)[i].frg == |Fragments(mss, msg)| - 1 - i && |Fragments(mss, msg)[i].data| <= mss
  {
    if |msg| <= mss {
      assert Merge([Segment(0, msg)]) == msg + Merge([]);
    } else {
      FragmentsMerge(mss, msg[mss..]);
      var all, rest := Fragments(mss, msg), Fragments(mss, msg[mss..]);
      assert all == [Segment(|rest|, msg[..mss])] + rest;
      hide Fragments;
      assert all[1..] == rest && msg[..mss] + msg[mss..] == msg;
      forall i | 0 <= i < |all|
        ensures all[i].frg == |all| - 1 - i && |all[i].data| <= mss
      {
        if i > 0 {
          assert all[i] == rest[i - 1];
        }
      }
    }
  }

  /** The number of fragments that ikcp_send computes. */
  function Count(mss: nat, n: nat): (r: nat)
    requires 0 < mss
  {
    if n <= mss then 1 else (n + mss - 1) / mss
  }

  lemma {:induction false} FragmentsCount(mss: nat, msg: seq<Byte>)
    requires 0 < mss
    ensures |Fragments(mss, msg)| == Count(mss, |msg|)
  {
    if |msg| > mss {
      FragmentsCount(mss, msg[mss..]);
      CountNext(mss, |msg| - mss);
    }
  }

  lemma CountNext(mss: nat, n: nat)
    requires 0 < mss && 0 < n
    ensures Count(mss, n + mss) == Count(mss, n) + 1
  {
    var m := n + mss - 1;
    DivPlus(m, mss);
    if n <= mss {
      DivOne(m, mss);
    }
  }

  lemma DivPlus(m: nat, d: nat)
    requires 0 < d
    ensures (m + d) / d == m / d + 1
  {
    var q, r := m / d, m % d;
    assert m + d == (q + 1) * d + r;
    DivUnique(m + d, d, q + 1, r);
  }

  lemma DivOne(m: nat, d: nat)
    requires 0 < d <= m < 2 * d
    ensures m / d == 1
  {
    DivUnique(m, d, 1, m - d);
  }

  /** A message is refused exactly if it needs 128 fragments or more. */
  lemma CountLimit(mss: nat, n: nat)
    requires 0 < mss
    ensures Count(mss, n) < 128 <==> n <= 127 * mss
  {
    if n > mss {
      var q, r := (n + mss - 1) / mss, (n + mss - 1) % mss;
      assert n + mss - 1 == q * mss + r;
      if q >= 128 {
        TimesGrows(128, q, mss);
      } else {
        TimesGrows(q, 127, mss);
      }
    }
  }

  lemma TimesGrows(a: nat, b: nat, d: nat)
    requires a <= b
    ensures a * d <= b * d
  {
    assert b * d == a * d + (b - a) * d;
  }

  /** ikcp_send: the new state and the result. */
  function Send(c: Config, p: Peer, msg: seq<Byte>): (r: (Peer, int))
    requires c.Valid()
  {
    if Count(c.Mss(), |msg|) >= WND_RCV then (p, -2)
    else (p.(sndQueue := p.sndQueue + Fragments(c.Mss(), msg)), |msg|)
  }

  // ---------------------------------------------------------------- receiving

  /** How many segments the head of the receive queue spans, up to the first one numbered 0. */
  function Span(q: seq<Segment>): (n: nat)
    ensures n <= |q|
    ensures q != [] ==> n > 0
  {
    if q == [] then 0 else if q[0].frg == 0 then 1 else 1 + Span(q[1..])
  }

  /** ikcp_peeksize */
  function PeekSize(q: seq<Segment>): (n: int)
  {
    if q == [] then -1
    else if q[0].frg == 0 then |q[0].data|
    else if |q| < q[0].frg + 1 then -1
    else |Merge(q[..Span(q)])|
  }

  /** Hand consecutive segments from the receive buffer to the receive queue. */
  function MoveReady(c: Config, p: Peer): (r: Peer)
    decreases |p.rcvBuf|
  {
    if p.rcvBuf != [] && Residue(p.rcvBuf[0].sn) == Residue(p.rcvNxt) && |p.rcvQueue| < c.rcvWnd then
      MoveReady(c, p.(rcvBuf := p.rcvBuf[1..], rcvQueue := p.rcvQueue + [p.rcvBuf[0].seg], rcvNxt := p.rcvNxt + 1))
    else p
  }

  datatype Received = Received(peer: Peer, result: int, data: seq<Byte>)

  /** ikcp_recv; a negative len asks for a peek. */
  function Recv(c: Config, p: Peer, len: int): (r: Received)
  {
    var size := if len < 0 then -len else len;
    if p.rcvQueue == [] then Received(p, -1, [])
    else if PeekSize(p.rcvQueue) < 0 then Received(p, -2, [])
    else if PeekSize(p.rcvQueue) > size then Received(p, -3, [])
    else
      var n := Span(p.rcvQueue);
      var data := Merge(p.rcvQueue[..n]);
      var taken := if len < 0 then p else p.(rcvQueue := p.rcvQueue[n..]);
      var moved := MoveReady(c, taken);
      var recover := |p.rcvQueue| >= c.rcvWnd && |moved.rcvQueue| < c.rcvWnd;
      Received(moved.(tell := p.tell || recover), |data|, data)
  }

  // ---------------------------------------------------------------- input

  /** ikcp_shrink_buf */
  function Shrink(p: Peer): (r: Peer)
  {
    p.(sndUna := if p.sndBuf == [] then p.sndNxt else p.sndBuf[0].sn)
  }

  function ParseAck(p: Peer, sn: int): (r: Peer)
  {
    if TimeDiff(sn, p.sndUna) < 0 || TimeDiff(sn, p.sndNxt) >= 0 then p
    else p.(sndBuf := RemoveSn(p.sndBuf, sn))
  }

  function ParseData(c: Config, p: Peer, e: Entry): (r: Peer)
  {
    if TimeDiff(e.sn, p.rcvNxt + c.rcvWnd) >= 0 || TimeDiff(e.sn, p.rcvNxt) < 0 then p
    else MoveReady(c, p.(rcvBuf := Insert(p.rcvBuf, e)))
  }

  function HandlePush(c: Config, p: Peer, s: Packet): (r: Peer)
  {
    var sn := Unwrap(s.sn, p.rcvNxt);
    if TimeDiff(sn, p.rcvNxt + c.rcvWnd) >= 0 then p
    else
      var q := p.(acks := p.acks + [Ack(sn, s.ts)]);
      if TimeDiff(sn, p.rcvNxt) >= 0 then ParseData(c, q, Entry(sn, Segment(s.frg, s.data), 0)) else q
  }

  /** The steps every segment starts with: the remote window and its acknowledgement number. */
  function HandleUna(p: Peer, s: Packet): (r: Peer)
  {
    Shrink(p.(rmtWnd := s.wnd, sndBuf := DropBelow(p.sndBuf, Unwrap(s.una, p.sndNxt))))
  }

  /** One turn of the loop of ikcp_input. */
  function Handle(c: Config, p: Peer, s: Packet): (r: Peer)
  {
    var q := HandleUna(p, s);
    if s.cmd == CMD_ACK then Shrink(ParseAck(q, Unwrap(s.sn, q.sndNxt)))
    else if s.cmd == CMD_PUSH then HandlePush(c, q, s)
    else if s.cmd == CMD_WASK then q.(tell := true)
    else q
  }

  function HandleAll(c: Config, p: Peer, ss: seq<Packet>): (r: Peer)
    decreases |ss|
  {
    if ss == [] then p else HandleAll(c, Handle(c, p, ss[0]), ss[1..])
  }

  /** ikcp_input: segments before a malformed one keep their effect. */
  function Input(c: Config, p: Peer, data: seq<Byte>): (r: (Peer, int))
  {
    var parsed := Parse(c.conv, data);
    (HandleAll(c, p, parsed.segments), parsed.result)
  }

  // ---------------------------------------------------------------- flush

  /** What timers and congestion control decide: the clock, the congestion window, the segments
   * due for retransmission and whether the window probe is due. */
  datatype Oracle = Oracle(current: U32, cwnd: nat, due: iset<int>, probe: bool)

  /** ikcp_wnd_unused, as the 16-bit field that carries it. */
  function Unused(c: Config, p: Peer): (w: U16)
  {
    if |p.rcvQueue| < c.rcvWnd then (c.rcvWnd - |p.rcvQueue|) % 0x1_0000 else 0
  }

  function Min(a: int, b: int): int
  {
    if a < b then a else b
  }

  function AckPackets(c: Config, p: Peer, n: nat): (r: seq<Packet>)
    requires n <= |p.acks|
    ensures |r| == n
  {
    seq(n, i requires 0 <= i < n => Packet(c.conv, CMD_ACK, 0, Unused(c, p), p.acks[i].ts, p.acks[i].sn, p.rcvNxt, []))
  }

  /** A probe segment; its sn and ts are left over from the last acknowledgement. */
  function ProbePacket(c: Config, p: Peer, cmd: Byte): (r: Packet)
  {
    var ack := if p.acks == [] then Ack(0, 0) else p.acks[|p.acks| - 1];
    Packet(c.conv, cmd, 0, Unused(c, p), ack.ts, ack.sn, p.rcvNxt, [])
  }

  function ProbePackets(c: Config, p: Peer, o: Oracle): (r: seq<Packet>)
  {
    (if p.rmtWnd == 0 && o.probe then [ProbePacket(c, p, CMD_WASK)] else [])
    + (if p.tell then [ProbePacket(c, p, CMD_WINS)] else [])
  }

  /** How many queued segments the window admits. */
  function AdmitCount(c: Config, p: Peer, o: Oracle): (n: nat)
    ensures n <= |p.sndQueue|
  {
    var room := p.sndUna + Min(o.cwnd, Min(c.sndWnd, p.rmtWnd)) - p.sndNxt;
    if room <= 0 then 0 else Min(room, |p.sndQueue|)
  }

  function Numbered(segs: seq<Segment>, sn: int): (r: seq<Entry>)
    ensures |r| == |segs|
  {
    seq(|segs|, i requires 0 <= i < |segs| => Entry(sn + i, segs[i], 0))
  }

  /** Move the first n queued segments to the send buffer under the next sequence numbers. */
  function Admit(p: Peer, n: nat): (r: Peer)
    requires n <= |p.sndQueue|
  {
    p.(sndQueue := p.sndQueue[n..], sndBuf := p.sndBuf + Numbered(p.sndQueue[..n], p.sndNxt), sndNxt := p.sndNxt + n)
  }

  predicate Needed(e: Entry, o: Oracle)
  {
    e.xmit == 0 || e.sn in o.due
  }

  function PushPacket(c: Config, p: Peer, o: Oracle, e: Entry): (r: Packet)
  {
    Packet(c.conv, CMD_PUSH, e.seg.frg % 256, Unused(c, p), o.current, e.sn, p.rcvNxt, e.seg.data)
  }

  function PushPackets(c: Config, p: Peer, o: Oracle, buf: seq<Entry>): (r: seq<Packet>)
  {
    if buf == [] then []
    else
      var last := |buf| - 1;
      PushPackets(c, p, o, buf[..last]) + (if Needed(buf[last], o) then [PushPacket(c, p, o, buf[last])] else [])
  }

  function MarkSent(buf: seq<Entry>, o: Oracle): (r: seq<Entry>)
    ensures |r| == |buf|
  {
    seq(|buf|, i requires 0 <= i < |buf| => if Needed(buf[i], o) then buf[i].(xmit := buf[i].xmit + 1) else buf[i])
  }

  /** The segments one ikcp_flush sends, in order. */
  function FlushPackets(c: Config, p: Peer, o: Oracle): (r: seq<Packet>)
  {
    AckPackets(c, p, |p.acks|) + ProbePackets(c, p, o) + PushPackets(c, p, o, Admit(p, AdmitCount(c, p, o)).sndBuf)
  }

  function Flush(c: Config, p: Peer, o: Oracle): (r: Peer)
  {
    var q := Admit(p, AdmitCount(c, p, o));
    q.(acks := [], tell := false, sndBuf := MarkSent(q.sndBuf, o))
  }
}
