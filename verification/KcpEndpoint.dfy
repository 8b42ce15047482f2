/**
 * The control block of ikcp.c with its queues and counters, and the entry points that update it.
 * Every method is proved to have the effect of the function of the same name in module Kcp, for
 * every input; the counters always equal the queue lengths.
 */
module KcpEndpoint {
  import opened Bytes
  import opened Collections
  import opened KcpWire
  import opened KcpPacking
  import K = Kcp
  import opened KcpQueues
  import opened KcpFlush

  /** The output side of ikcp_flush: datagrams handed to the output callback, and the bytes between
   * buffer and ptr. */
  datatype Buffer = Buffer(out: seq<seq<Byte>>, pending: seq<Byte>)

  ghost predicate AllSendable(ds: seq<seq<Packet>>)
  {
    forall k :: 0 <= k < |ds| ==> Sendable(ds[k])
  }

  ghost function Encoded(ds: seq<seq<Packet>>): (r: seq<seq<Byte>>)
    requires AllSendable(ds)
    ensures |r| == |ds|
  {
    seq(|ds|, k requires 0 <= k < |ds| => EncodeAll(ds[k]))
  }

  /** The buffer holds the segments ss, packed. */
  ghost predicate Written(mtu: nat, b: Buffer, ss: seq<Packet>)
  {
    var o := PutAll(mtu, ss);
    AllSendable(o.done) && Sendable(o.cur) && b == Buffer(Encoded(o.done), EncodeAll(o.cur))
  }

  lemma WriteStep(mtu: nat, b: Buffer, ss: seq<Packet>, s: Packet)
    requires Written(mtu, b, ss) && |s.data| < HALF
    ensures |b.pending| == Size(PutAll(mtu, ss).cur)
    ensures Written(mtu,
      if |b.pending| + OVERHEAD + |s.data| > mtu then Buffer(b.out + [b.pending], Encode(s)) else Buffer(b.out, b.pending + Encode(s)),
      ss + [s])
  {
    hide PutAll, Encode;
    var o := PutAll(mtu, ss);
    PutNext(mtu, ss, s);
    EncodeAppend(o.cur, s);
    EncodeAppend([], s);
    assert [] + [s] == [s];
    if |b.pending| + OVERHEAD + |s.data| > mtu {
      assert Encoded(o.done + [o.cur]) == Encoded(o.done) + [EncodeAll(o.cur)];
    }
  }

  lemma PutNext(mtu: nat, ss: seq<Packet>, s: Packet)
    ensures PutAll(mtu, ss + [s]) == Put(mtu, PutAll(mtu, ss), s)
  {
    hide Put;
    assert (ss + [s])[..|ss|] == ss;
  }

  /** The pattern repeated in ikcp_flush: output the buffer when the segment does not fit, then
   * append the segment. */
  method Emit(mtu: nat, b: Buffer, s: Packet, ghost ss: seq<Packet>) returns (r: Buffer)
    requires Written(mtu, b, ss) && |s.data| < HALF
    ensures Written(mtu, r, ss + [s])
  {
    hide Written, Encode;
    WriteStep(mtu, b, ss, s);
    r := b;
    var size := |r.pending|;
    if size + OVERHEAD + |s.data| > mtu {
      r := Buffer(r.out + [r.pending], []);
    }
    assert [] + Encode(s) == Encode(s);
    r := r.(pending := r.pending + Encode(s));
  }

  class KcpCb {
    const c: K.Config
    var sndUna: int
    var sndNxt: int
    var rcvNxt: int
    var rmtWnd: U16
    var sndQueue: seq<K.Segment>
    var sndBuf: seq<K.Entry>
    var rcvBuf: seq<K.Entry>
    var rcvQueue: seq<K.Segment>
    var acklist: seq<K.Ack>
    var tell: bool
    var nsndQue: int
    var nsndBuf: int
    var nrcvBuf: int
    var nrcvQue: int

    ghost function State(): K.Peer
      reads this
    {
      K.Peer(sndUna, sndNxt, rcvNxt, rmtWnd, sndQueue, sndBuf, rcvBuf, rcvQueue, acklist, tell)
    }

    ghost predicate Counted()
      reads this
    {
      nsndQue == |sndQueue| && nsndBuf == |sndBuf| && nrcvBuf == |rcvBuf| && nrcvQue == |rcvQueue|
    }

    ghost predicate Valid()
      reads this
    {
      Counted() && c.Valid() && Ok(c, State())
    }

    /** ikcp_create */
    constructor (c: K.Config)
      requires c.Valid()
      ensures this.c == c && Valid() && State() == Fresh()
      ensures sndUna == sndNxt == rcvNxt == 0 && rmtWnd == 128 && sndQueue == [] && sndBuf == [] && rcvBuf == [] && rcvQueue == []
      ensures acklist == [] && !tell
    {
      this.c := c;
      sndUna, sndNxt, rcvNxt, rmtWnd := 0, 0, 0, K.WND_RCV;
      sndQueue, sndBuf, rcvBuf, rcvQueue, acklist, tell := [], [], [], [], [], false;
      nsndQue, nsndBuf, nrcvBuf, nrcvQue := 0, 0, 0, 0;
      new;
      FreshIsOk(c);
    }

    // -------------------------------------------------------------- ikcp_send

    method Send(buffer: seq<Byte>) returns (result: int)
      requires Valid()
      modifies this
      ensures Valid()
      ensures (State(), result) == K.Send(c, old(State()), buffer)
      ensures result == if |buffer| <= 127 * (c.mtu - 24) then |buffer| else -2
      ensures result < 0 ==> State() == old(State())
      ensures result >= 0 ==> Queued(c.mtu - 24, old(State()), State(), buffer)
    {
      hide K.Fragments, Ok, Queued;
      SendKeeps(c, State(), buffer);
      SendQueues(c, State(), buffer);
      var mss := c.Mss();
      var len := |buffer|;
      K.FragmentsCount(mss, buffer);
      var count := if len <= mss then 1 else (len + mss - 1) / mss;
      if count >= K.WND_RCV {
        return -2;
      }
      var at := 0;
      ghost var left := K.Fragments(mss, buffer);
      assert buffer[0..] == buffer;
      for i := 0 to count
        invariant 0 <= at <= |buffer| && |left| == count - i && Counted()
        invariant i < count ==> left == K.Fragments(mss, buffer[at..])
        invariant i == count ==> at == |buffer|
        invariant State() == old(State()).(sndQueue := sndQueue) && sndQueue + left == old(sndQueue) + K.Fragments(mss, buffer)
      {
        FragmentStep(mss, buffer, at);
        var size := if |buffer| - at > mss then mss else |buffer| - at;
        sndQueue := sndQueue + [K.Segment(count - i - 1, buffer[at..at + size])];
        nsndQue := nsndQue + 1;
        at := at + size;
        left := left[1..];
      }
      assert sndQueue == sndQueue + left;
      result := at;
    }

    // -------------------------------------------------------------- ikcp_recv

    /** ikcp_peeksize */
    method Peek() returns (length: int)
      requires Counted()
      ensures length == K.PeekSize(rcvQueue)
    {
      if rcvQueue == [] {
        return -1;
      }
      if rcvQueue[0].frg == 0 {
        return |rcvQueue[0].data|;
      }
      if nrcvQue < rcvQueue[0].frg + 1 {
        return -1;
      }
      hide K.Span, K.Merge, Merging;
      length := 0;
      ghost var data: seq<Byte> := [];
      MergeStart(rcvQueue);
      var i := 0;
      while i < |rcvQueue|
        invariant 0 <= i <= |rcvQueue| && length == |data| && Merging(rcvQueue, i, data)
      {
        MergeStep(rcvQueue, i, data);
        data := data + rcvQueue[i].data;
        length := length + |rcvQueue[i].data|;
        if rcvQueue[i].frg == 0 {
          return;
        }
        i := i + 1;
      }
      MergeDone(rcvQueue, data);
    }

    /** Hand consecutive segments from the receive buffer to the receive queue. */
    method MoveReady()
      requires c.Valid() && Counted()
      modifies this`rcvBuf, this`nrcvBuf, this`rcvQueue, this`nrcvQue, this`rcvNxt
      ensures Counted() && State() == K.MoveReady(c, old(State()))
    {
      hide K.MoveReady, Residue;
      while rcvBuf != []
        invariant Counted() && K.MoveReady(c, State()) == K.MoveReady(c, old(State()))
      {
        var seg := rcvBuf[0];
        MoveStep(c, State());
        if Residue(seg.sn) == Residue(rcvNxt) && nrcvQue < c.rcvWnd {
          rcvBuf := rcvBuf[1..];
          nrcvBuf := nrcvBuf - 1;
          rcvQueue := rcvQueue + [seg.seg];
          nrcvQue := nrcvQue + 1;
          rcvNxt := rcvNxt + 1;
        } else {
          return;
        }
      }
      MoveNone(c, State());
    }

    method Recv(len: int) returns (result: int, data: seq<Byte>)
      requires Valid()
      modifies this
      ensures Valid()
      ensures K.Received(State(), result, data) == K.Recv(c, old(State()), len)
      ensures tell == (old(tell) || (|old(rcvQueue)| >= c.rcvWnd && |rcvQueue| < c.rcvWnd))
    {
      hide Ok, K.MoveReady, K.Merge, K.PeekSize, K.Span;
      RecvKeeps(c, State(), len);
      data := [];
      var isPeek := len < 0;
      if rcvQueue == [] {
        return -1, [];
      }
      var room := if len < 0 then -len else len;
      var size := Peek();
      if size < 0 {
        return -2, [];
      }
      if size > room {
        return -3, [];
      }
      var recover := nrcvQue >= c.rcvWnd;
      data := MergeFragments(isPeek);
      result := |data|;
      MoveReady();
      if nrcvQue < c.rcvWnd && recover {
        tell := true;
      }
    }

    /** The loop of ikcp_recv that merges the head message and, unless peeking, unlinks it. */
    method MergeFragments(isPeek: bool) returns (data: seq<Byte>)
      requires Counted() && rcvQueue != []
      modifies this`rcvQueue, this`nrcvQue
      ensures Counted() && data == K.Merge(old(rcvQueue)[..K.Span(old(rcvQueue))])
      ensures rcvQueue == if isPeek then old(rcvQueue) else old(rcvQueue)[K.Span(old(rcvQueue))..]
    {
      hide K.Merge, K.Span, Merging;
      data := [];
      ghost var q, at := rcvQueue, 0;
      var i := 0;
      MergeStart(q);
      while i < |rcvQueue|
        invariant Counted() && 0 <= at <= |q| && Merging(q, at, data)
        invariant rcvQueue == (if isPeek then q else q[at..]) && i == (if isPeek then at else 0)
        decreases |q| - at
      {
        MergeStep(q, at, data);
        var seg := rcvQueue[i];
        data := data + seg.data;
        if isPeek {
          i := i + 1;
        } else {
          rcvQueue := rcvQueue[1..];
          nrcvQue := nrcvQue - 1;
        }
        at := at + 1;
        if seg.frg == 0 {
          return;
        }
      }
      MergeDone(q, data);
    }

    // -------------------------------------------------------------- acknowledgements

    /** ikcp_shrink_buf */
    method ShrinkBuf()
      modifies this`sndUna
      ensures State() == K.Shrink(old(State()))
    {
      if sndBuf != [] {
        sndUna := sndBuf[0].sn;
      } else {
        sndUna := sndNxt;
      }
    }

    method ParseUna(una: int)
      requires Counted()
      modifies this`sndBuf, this`nsndBuf
      ensures Counted() && sndBuf == K.DropBelow(old(sndBuf), una)
    {
      hide TimeDiff;
      while sndBuf != []
        invariant Counted() && K.DropBelow(sndBuf, una) == K.DropBelow(old(sndBuf), una)
      {
        var seg := sndBuf[0];
        if TimeDiff(una, seg.sn) > 0 {
          sndBuf := sndBuf[1..];
          nsndBuf := nsndBuf - 1;
        } else {
          break;
        }
      }
    }

    method ParseAck(sn: int)
      requires Counted()
      modifies this`sndBuf, this`nsndBuf
      ensures Counted() && State() == K.ParseAck(old(State()), sn)
    {
      hide TimeDiff, Residue, K.RemoveSn;
      if TimeDiff(sn, sndUna) < 0 || TimeDiff(sn, sndNxt) >= 0 {
        return;
      }
      ghost var buf := sndBuf;
      assert buf[0..] == buf;
      var i := 0;
      while i < |sndBuf|
        invariant 0 <= i <= |sndBuf| && sndBuf == buf && Counted()
        invariant buf[..i] + K.RemoveSn(buf[i..], sn) == K.RemoveSn(buf, sn)
      {
        var seg := sndBuf[i];
        RemoveStep(buf, sn, i);
        if Residue(sn) == Residue(seg.sn) {
          sndBuf := sndBuf[..i] + sndBuf[i + 1..];
          nsndBuf := nsndBuf - 1;
          break;
        }
        if TimeDiff(sn, seg.sn) < 0 {
          break;
        }
        i := i + 1;
      }
      if i == |buf| {
        RemoveNothing(buf, sn);
      }
    }

    /** ikcp_ack_push */
    method AckPush(sn: int, ts: U32)
      modifies this`acklist
      ensures acklist == old(acklist) + [K.Ack(sn, ts)]
    {
      acklist := acklist + [K.Ack(sn, ts)];
    }

    // -------------------------------------------------------------- ikcp_parse_data

    method ParseData(newseg: K.Entry)
      requires c.Valid() && Counted()
      modifies this`rcvBuf, this`nrcvBuf, this`rcvQueue, this`nrcvQue, this`rcvNxt
      ensures Counted() && State() == K.ParseData(c, old(State()), newseg)
    {
      hide TimeDiff, Residue, K.MoveReady, K.Config.Valid;
      var sn := newseg.sn;
      if TimeDiff(sn, rcvNxt + c.rcvWnd) >= 0 || TimeDiff(sn, rcvNxt) < 0 {
        return;
      }
      var buf := rcvBuf;
      var i, repeat := |rcvBuf|, false;
      assert buf[..i] == buf && buf[i..] == [];
      while i > 0
        invariant 0 <= i <= |buf| && !repeat && Counted() && State() == old(State())
        invariant K.Insert(buf, newseg) == K.Insert(buf[..i], newseg) + buf[i..]
      {
        var seg := rcvBuf[i - 1];
        InsertBack(buf, newseg, i);
        if Residue(seg.sn) == Residue(sn) {
          repeat := true;
          break;
        }
        if TimeDiff(sn, seg.sn) > 0 {
          break;
        }
        i := i - 1;
      }
      if !repeat {
        rcvBuf := rcvBuf[..i] + [newseg] + rcvBuf[i..];
        nrcvBuf := nrcvBuf + 1;
      }
      if i == 0 && !repeat {
        InsertDone(buf, newseg);
      }
      MoveReady();
    }

    // -------------------------------------------------------------- ikcp_input

    method Input(data: seq<Byte>) returns (result: int)
      requires Valid()
      modifies this
      ensures Valid()
      ensures (State(), result) == K.Input(c, old(State()), data)
    {
      hide Ok, ParseFrom, K.Handle, K.HandleAll, DecodeHeader, LengthField, Decode32;
      InputKeeps(c, State(), data);
      HandleNone(c, State());
      if |data| < OVERHEAD {
        return -1;
      }
      var at := 0;
      assert data[0..] == data;
      ghost var all := ParseFrom(c.conv, data);
      ghost var done: seq<Packet> := [];
      while true
        invariant 0 <= at <= |data| && Counted() && c.Valid()
        invariant done + ParseFrom(c.conv, data[at..]).segments == all.segments
        invariant ParseFrom(c.conv, data[at..]).result == all.result
        invariant State() == K.HandleAll(c, old(State()), done)
        decreases |data| - at
      {
        var s := data[at..];
        ParseStops(c.conv, s);
        if |s| < OVERHEAD {
          break;
        }
        if Decode32(s, 0) != c.conv {
          assert done + [] == done;
          return -1;
        }
        var cmd, len := s[4], LengthField(s);
        if |s| - OVERHEAD < len || Signed(len) < 0 {
          assert done + [] == done;
          return -2;
        }
        if cmd != CMD_PUSH && cmd != CMD_ACK && cmd != CMD_WASK && cmd != CMD_WINS {
          assert done + [] == done;
          return -3;
        }
        var segment := DecodeHeader(s, s[OVERHEAD..OVERHEAD + len]);
        HeaderReads(s, s[OVERHEAD..OVERHEAD + len]);
        ParseStep(c.conv, s);
        HandleNext(c, old(State()), done, segment);
        HandleSegment(segment);
        ghost var rest := ParseFrom(c.conv, s[OVERHEAD + len..]).segments;
        assert done + ([segment] + rest) == (done + [segment]) + rest;
        done := done + [segment];
        assert s[OVERHEAD + len..] == data[at + OVERHEAD + len..];
        at := at + OVERHEAD + len;
      }
      assert done + [] == done;
      result := 0;
    }

    /** The body of the loop of ikcp_input once a header has been read and checked. */
    method HandleSegment(s: Packet)
      requires Counted() && c.Valid() && Known(s.cmd)
      modifies this
      ensures Counted() && State() == K.Handle(c, old(State()), s)
    {
      hide TimeDiff, Unwrap, Residue, K.DropBelow, K.ParseAck, K.ParseData, K.MoveReady;
      rmtWnd := s.wnd;
      ParseUna(Unwrap(s.una, sndNxt));
      ShrinkBuf();
      if s.cmd == CMD_ACK {
        ParseAck(Unwrap(s.sn, sndNxt));
        ShrinkBuf();
      } else if s.cmd == CMD_PUSH {
        var sn := Unwrap(s.sn, rcvNxt);
        if TimeDiff(sn, rcvNxt + c.rcvWnd) < 0 {
          AckPush(sn, s.ts);
          if TimeDiff(sn, rcvNxt) >= 0 {
            ParseData(K.Entry(sn, K.Segment(s.frg, s.data), 0));
          }
        }
      } else if s.cmd == CMD_WASK {
        tell := true;
      }
    }

    // -------------------------------------------------------------- ikcp_flush

    /** ikcp_wnd_unused, cast to the 16 bits of the header. */
    method WndUnused() returns (wnd: U16)
      requires Counted()
      ensures wnd == K.Unused(c, State())
    {
      wnd := if nrcvQue < c.rcvWnd then (c.rcvWnd - nrcvQue) % 0x1_0000 else 0;
    }

    /** Acknowledgements; seg keeps the numbers of the last one. */
    method FlushAcks() returns (b: Buffer, seg: Packet)
      requires Counted()
      modifies this`acklist
      ensures acklist == [] && Written(c.mtu, b, K.AckPackets(c, old(State()), |old(State()).acks|))
      ensures seg == K.ProbePacket(c, old(State()), CMD_ACK)
    {
      hide Written, K.Unused;
      var wnd := WndUnused();
      ghost var p := State();
      seg := Packet(c.conv, CMD_ACK, 0, wnd, 0, 0, rcvNxt, []);
      b := Buffer([], []);
      NothingWritten(c.mtu);
      assert K.AckPackets(c, p, 0) == [];
      for i := 0 to |acklist|
        invariant acklist == p.acks && Written(c.mtu, b, K.AckPackets(c, p, i))
        invariant seg == Packet(c.conv, CMD_ACK, 0, wnd, if i == 0 then 0 else acklist[i - 1].ts,
                                if i == 0 then 0 else acklist[i - 1].sn, rcvNxt, [])
      {
        seg := seg.(sn := acklist[i].sn, ts := acklist[i].ts);
        assert K.AckPackets(c, p, i + 1) == K.AckPackets(c, p, i) + [seg];
        b := Emit(c.mtu, b, seg, K.AckPackets(c, p, i));
      }
      acklist := [];
    }

    /** Window probe and window announcement. */
    method FlushProbes(b0: Buffer, seg0: Packet, o: K.Oracle, ghost p: K.Peer, ghost ss: seq<Packet>) returns (b: Buffer)
      requires Written(c.mtu, b0, ss) && seg0 == K.ProbePacket(c, p, CMD_ACK) && p.rmtWnd == rmtWnd && p.tell == tell
      modifies this`tell
      ensures !tell && Written(c.mtu, b, ss + K.ProbePackets(c, p, o))
    {
      hide Written, K.Unused;
      b := b0;
      ghost var done := ss;
      var seg := seg0;
      if rmtWnd == 0 && o.probe {
        seg := seg.(cmd := CMD_WASK);
        b := Emit(c.mtu, b, seg, done);
        done := done + [seg];
      }
      if tell {
        seg := seg.(cmd := CMD_WINS);
        b := Emit(c.mtu, b, seg, done);
        done := done + [seg];
      }
      assert done == ss + K.ProbePackets(c, p, o);
      tell := false;
    }

    /** Move data from snd_queue to snd_buf. */
    method AdmitQueued(o: K.Oracle)
      requires Valid()
      modifies this`sndQueue, this`nsndQue, this`sndBuf, this`nsndBuf, this`sndNxt
      ensures Counted() && State() == K.Admit(old(State()), K.AdmitCount(c, old(State()), o))
    {
      hide TimeDiff, K.Admit, Ok;
      ghost var p := State();
      WindowSmall(c, p);
      var cwnd := K.Min(o.cwnd, K.Min(c.sndWnd, rmtWnd));
      ghost var k: nat := 0;
      NoneAdmitted(p);
      while true
        invariant Counted() && k <= |p.sndQueue| && State() == K.Admit(p, k)
        invariant sndUna == p.sndUna && sndNxt == p.sndNxt + k && |sndQueue| == |p.sndQueue| - k
        invariant k > 0 ==> p.sndNxt + k <= p.sndUna + cwnd
        decreases |sndQueue|
      {
        TimeDiffExact(sndNxt, sndUna + cwnd);
        if TimeDiff(sndNxt, sndUna + cwnd) >= 0 {
          break;
        }
        if sndQueue == [] {
          break;
        }
        var newseg := sndQueue[0];
        AdmitOneMore(p, k);
        sndQueue := sndQueue[1..];
        sndBuf := sndBuf + [K.Entry(sndNxt, newseg, 0)];
        nsndQue := nsndQue - 1;
        nsndBuf := nsndBuf + 1;
        sndNxt := sndNxt + 1;
        k := k + 1;
      }
    }

    /** Data segments: first transmissions and retransmissions. */
    method FlushData(b0: Buffer, o: K.Oracle, ghost p: K.Peer, ghost ss: seq<Packet>) returns (b: Buffer)
      requires Counted() && Written(c.mtu, b0, ss) && p.rcvNxt == rcvNxt && p.rcvQueue == rcvQueue
      requires forall i :: 0 <= i < |sndBuf| ==> |sndBuf[i].seg.data| < HALF
      modifies this`sndBuf
      ensures Counted() && sndBuf == K.MarkSent(old(sndBuf), o)
      ensures Written(c.mtu, b, ss + K.PushPackets(c, p, o, old(sndBuf)))
    {
      hide Written, K.PushPackets, K.MarkSent;
      ghost var buf := sndBuf;
      var wnd := WndUnused();
      b := b0;
      NoPushes(c, p, o, buf);
      assert wnd == K.Unused(c, p);
      assert ss + [] == ss;
      for i := 0 to |sndBuf|
        invariant |sndBuf| == |buf| && Counted()
        invariant forall k :: i <= k < |buf| ==> sndBuf[k] == buf[k]
        invariant forall k :: 0 <= k < i ==> sndBuf[k] == K.MarkSent(buf, o)[k]
        invariant Written(c.mtu, b, ss + K.PushPackets(c, p, o, buf[..i]))
      {
        var segment := sndBuf[i];
        ghost var done := K.PushPackets(c, p, o, buf[..i]);
        PushNext(c, p, o, buf, i);
        if segment.xmit == 0 || segment.sn in o.due {
          var packet := Packet(c.conv, CMD_PUSH, segment.seg.frg % 256, wnd, o.current, segment.sn, rcvNxt, segment.seg.data);
          b := Emit(c.mtu, b, packet, ss + done);
          assert ss + (done + [packet]) == (ss + done) + [packet];
          sndBuf := sndBuf[i := segment.(xmit := segment.xmit + 1)];
        } else {
          assert ss + (done + []) == ss + done;
        }
      }
      assert buf[..|buf|] == buf;
      assert sndBuf == K.MarkSent(buf, o);
    }

    /** ikcp_flush; the result is what the output callback is given, in order: the encodings of datagrams
     * that carry exactly the pending acknowledgements, probes and due data. */
    method Flush(o: K.Oracle) returns (sent: seq<seq<Byte>>, ghost ds: seq<seq<Packet>>, ghost parts: Parts)
      requires Valid()
      modifies this
      ensures Valid() && State() == K.Flush(c, old(State()), o) && ds == Datagrams(c.mtu, K.FlushPackets(c, old(State()), o))
      ensures AllSendable(ds) && sent == Encoded(ds)
      ensures Fills(c, old(State()), o, State()) && PartsOf(c, old(State()), o, State(), parts) && Carry(c, ds, parts)
    {
      hide Ok, Written, Encoded, Datagrams, AllSendable, Fills, PartsOf, Carry;
      hide K.AckPackets, K.ProbePackets, K.ProbePacket, K.PushPackets, K.AdmitCount, K.Admit, K.MarkSent;
      ghost var p := State();
      ghost var q := K.Admit(p, K.AdmitCount(c, p, o));
      FlushKeeps(c, p, o);
      FlushFills(c, p, o);
      parts := FlushSends(c, p, o);
      ds := Datagrams(c.mtu, K.FlushPackets(c, p, o));
      AdmittedSizes(c, p, o);
      var b, seg := FlushAcks();
      b := FlushProbes(b, seg, o, p, K.AckPackets(c, p, |p.acks|));
      StillOk(c, p, State());
      AdmitQueued(o);
      AdmitSame(c, p, o);
      b := FlushData(b, o, p, K.AckPackets(c, p, |p.acks|) + K.ProbePackets(c, p, o));
      FinishWritten(c.mtu, b, K.FlushPackets(c, p, o));
      sent := b.out;
      if |b.pending| > 0 {
        sent := sent + [b.pending];
      }
    }
  }

  // ---------------------------------------------------------------- what a send queues

  /** The message has joined the end of the queue, in fragments that count down to 0, all of them full
   * but the last. */
  ghost predicate Queued(mss: nat, p: K.Peer, q: K.Peer, buffer: seq<Byte>)
  {
    && q == p.(sndQueue := q.sndQueue) && p.sndQueue < q.sndQueue
    && var f := q.sndQueue[|p.sndQueue|..];
      && K.Merge(f) == buffer
      && forall i :: 0 <= i < |f| ==>
           && f[i].frg == |f| - 1 - i
           && (if i < |f| - 1 then |f[i].data| == mss else |f[i].data| <= mss)
  }

  lemma SendQueues(c: K.Config, p: K.Peer, buffer: seq<Byte>)
    requires c.Valid()
    ensures K.Send(c, p, buffer).1 == if |buffer| <= 127 * (c.mtu - 24) then |buffer| else -2
    ensures K.Send(c, p, buffer).1 < 0 ==> K.Send(c, p, buffer).0 == p
    ensures K.Send(c, p, buffer).1 >= 0 ==> Queued(c.mtu - 24, p, K.Send(c, p, buffer).0, buffer)
  {
    hide K.Fragments, K.Merge;
    K.CountLimit(c.Mss(), |buffer|);
    K.FragmentsMerge(c.Mss(), buffer);
    FragmentsFull(c.Mss(), buffer);
    var f := K.Fragments(c.Mss(), buffer);
    assert (p.sndQueue + f)[|p.sndQueue|..] == f;
  }

  ghost predicate AllFull(f: seq<K.Segment>, mss: nat)
  {
    forall i :: 0 <= i < |f| - 1 ==> |f[i].data| == mss
  }

  lemma {:induction false} FragmentsFull(mss: nat, msg: seq<Byte>)
    requires 0 < mss
    ensures AllFull(K.Fragments(mss, msg), mss)
  {
    if |msg| > mss {
      FragmentsFull(mss, msg[mss..]);
      FullNext(K.Fragments(mss, msg[mss..]), msg[..mss], mss);
    }
  }

  lemma FullNext(rest: seq<K.Segment>, data: seq<Byte>, mss: nat)
    requires AllFull(rest, mss) && |data| == mss
    ensures AllFull([K.Segment(|rest|, data)] + rest, mss)
  {
  }

  // ---------------------------------------------------------------- steps of the loops

  lemma FragmentStep(mss: nat, msg: seq<Byte>, at: nat)
    requires 0 < mss && at <= |msg|
    ensures var f := K.Fragments(mss, msg[at..]);
      var size := if |msg| - at > mss then mss else |msg| - at;
      && f[0] == K.Segment(|f| - 1, msg[at..at + size])
      && (|f| == 1 ==> at + size == |msg|)
      && (|f| > 1 ==> f[1..] == K.Fragments(mss, msg[at + size..]))
  {
    var rest := msg[at..];
    if |rest| > mss {
      assert rest[mss..] == msg[at + mss..];
      assert rest[..mss] == msg[at..at + mss];
    } else {
      assert rest == msg[at..at + |rest|];
    }
  }

  /** The first at segments of the head message have been merged into data. */
  ghost predicate Merging(q: seq<K.Segment>, at: nat, data: seq<Byte>)
  {
    at <= |q| && at + K.Span(q[at..]) == K.Span(q) && data + K.Merge(q[at..][..K.Span(q[at..])]) == K.Merge(q[..K.Span(q)])
  }

  lemma MergeStart(q: seq<K.Segment>)
    ensures Merging(q, 0, [])
  {
    hide K.Span, K.Merge;
    assert q[0..] == q;
    assert [] + K.Merge(q[..K.Span(q)]) == K.Merge(q[..K.Span(q)]);
  }

  lemma MergeStep(q: seq<K.Segment>, at: nat, data: seq<Byte>)
    requires at < |q| && Merging(q, at, data)
    ensures q[at].frg == 0 ==> at + 1 == K.Span(q) && data + q[at].data == K.Merge(q[..K.Span(q)])
    ensures q[at].frg != 0 ==> Merging(q, at + 1, data + q[at].data)
  {
    hide K.Span, K.Merge;
    SpanTail(q[at..]);
    assert q[at..][1..] == q[at + 1..] && q[at..][0] == q[at];
    Associates(data, q[at].data, K.Merge(q[at + 1..][..K.Span(q[at + 1..])]));
  }

  lemma SpanTail(t: seq<K.Segment>)
    requires t != []
    ensures t[0].frg == 0 ==> K.Span(t) == 1 && K.Merge(t[..1]) == t[0].data
    ensures t[0].frg != 0 ==> K.Span(t) == 1 + K.Span(t[1..]) && K.Merge(t[..K.Span(t)]) == t[0].data + K.Merge(t[1..][..K.Span(t[1..])])
  {
    if t[0].frg == 0 {
      assert K.Merge(t[..1]) == t[0].data + K.Merge(t[..1][1..]);
    } else {
      var n := K.Span(t[1..]);
      assert t[..1 + n][1..] == t[1..][..n];
    }
  }

  lemma MergeDone(q: seq<K.Segment>, data: seq<Byte>)
    requires Merging(q, |q|, data)
    ensures data == K.Merge(q[..K.Span(q)]) && K.Span(q) == |q|
  {
    assert q[|q|..] == [];
    assert data + K.Merge([]) == data;
  }

  lemma RemoveStep(buf: seq<K.Entry>, sn: int, i: nat)
    requires i < |buf|
    ensures buf[..i] + K.RemoveSn(buf[i..], sn) ==
      if Residue(sn) == Residue(buf[i].sn) then buf[..i] + buf[i + 1..]
      else if TimeDiff(sn, buf[i].sn) < 0 then buf
      else buf[..i + 1] + K.RemoveSn(buf[i + 1..], sn)
  {
    hide TimeDiff, Residue;
    var t := buf[i..];
    assert t[0] == buf[i] && t[1..] == buf[i + 1..];
    RemoveFirst(t, sn);
    hide K.RemoveSn;
    assert buf[..i] + t == buf;
    assert buf[..i] + [buf[i]] == buf[..i + 1];
    Associates(buf[..i], [buf[i]], K.RemoveSn(buf[i + 1..], sn));
  }

  lemma RemoveFirst(t: seq<K.Entry>, sn: int)
    requires t != []
    ensures K.RemoveSn(t, sn) ==
      if Residue(sn) == Residue(t[0].sn) then t[1..]
      else if TimeDiff(sn, t[0].sn) < 0 then t
      else [t[0]] + K.RemoveSn(t[1..], sn)
  {
  }

  lemma RemoveNothing(buf: seq<K.Entry>, sn: int)
    ensures buf[..|buf|] + K.RemoveSn(buf[|buf|..], sn) == buf
  {
    assert buf[|buf|..] == [];
  }

  /** One turn of the moving loop. */
  lemma MoveStep(c: K.Config, p: K.Peer)
    requires p.rcvBuf != []
    ensures K.MoveReady(c, p) ==
      if Residue(p.rcvBuf[0].sn) == Residue(p.rcvNxt) && |p.rcvQueue| < c.rcvWnd then
        K.MoveReady(c, p.(rcvBuf := p.rcvBuf[1..], rcvQueue := p.rcvQueue + [p.rcvBuf[0].seg], rcvNxt := p.rcvNxt + 1))
      else p
  {
  }

  lemma MoveNone(c: K.Config, p: K.Peer)
    requires p.rcvBuf == []
    ensures K.MoveReady(c, p) == p
  {
  }

  lemma InsertBack(buf: seq<K.Entry>, e: K.Entry, i: nat)
    requires 0 < i <= |buf| && K.Insert(buf, e) == K.Insert(buf[..i], e) + buf[i..]
    ensures Residue(buf[i - 1].sn) == Residue(e.sn) ==> K.Insert(buf, e) == buf
    ensures Residue(buf[i - 1].sn) != Residue(e.sn) && TimeDiff(e.sn, buf[i - 1].sn) > 0 ==>
      K.Insert(buf, e) == buf[..i] + [e] + buf[i..]
    ensures Residue(buf[i - 1].sn) != Residue(e.sn) && TimeDiff(e.sn, buf[i - 1].sn) <= 0 ==>
      K.Insert(buf, e) == K.Insert(buf[..i - 1], e) + buf[i - 1..]
  {
    hide TimeDiff, Residue, K.Insert;
    var b := buf[..i];
    InsertLast(b, e);
    assert b[..i - 1] == buf[..i - 1] && b[i - 1] == buf[i - 1];
    assert buf == b + buf[i..];
    assert [buf[i - 1]] + buf[i..] == buf[i - 1..];
    Associates(K.Insert(b[..i - 1], e), [buf[i - 1]], buf[i..]);
  }

  lemma InsertLast(b: seq<K.Entry>, e: K.Entry)
    requires b != []
    ensures var last := |b| - 1;
      K.Insert(b, e) ==
        if Residue(b[last].sn) == Residue(e.sn) then b
        else if TimeDiff(e.sn, b[last].sn) > 0 then b + [e]
        else K.Insert(b[..last], e) + [b[last]]
  {
  }

  lemma InsertDone(buf: seq<K.Entry>, e: K.Entry)
    requires K.Insert(buf, e) == K.Insert(buf[..0], e) + buf[0..]
    ensures K.Insert(buf, e) == buf[..0] + [e] + buf[0..]
  {
  }

  /** The outcomes of one look at the remaining bytes. */
  lemma ParseStops(conv: U32, s: seq<Byte>)
    ensures |s| < OVERHEAD ==> ParseFrom(conv, s) == Parsed([], 0)
    ensures |s| >= OVERHEAD && Decode32(s, 0) != conv ==> ParseFrom(conv, s) == Parsed([], -1)
    ensures |s| >= OVERHEAD && Decode32(s, 0) == conv && (|s| - OVERHEAD < LengthField(s) || Signed(LengthField(s)) < 0) ==>
      ParseFrom(conv, s) == Parsed([], -2)
    ensures |s| >= OVERHEAD && Decode32(s, 0) == conv && LengthField(s) <= |s| - OVERHEAD && Signed(LengthField(s)) >= 0 ==>
      !Known(s[4]) ==> ParseFrom(conv, s) == Parsed([], -3)
  {
    hide Decode32, LengthField;
  }

  lemma HandleNone(c: K.Config, p: K.Peer)
    ensures K.HandleAll(c, p, []) == p
  {
  }

  lemma {:induction false} HandleNext(c: K.Config, p: K.Peer, done: seq<Packet>, s: Packet)
    ensures K.HandleAll(c, p, done + [s]) == K.Handle(c, K.HandleAll(c, p, done), s)
    decreases |done|
  {
    hide K.Handle;
    if done == [] {
      assert ([] + [s])[1..] == [];
    } else {
      HandleNext(c, K.Handle(c, p, done[0]), done[1..], s);
      assert (done + [s])[1..] == done[1..] + [s];
    }
  }

  lemma NothingWritten(mtu: nat)
    ensures Written(mtu, Buffer([], []), [])
  {
    assert Encoded([]) == [];
  }

  lemma WindowSmall(c: K.Config, p: K.Peer)
    requires Ok(c, p)
    ensures 0 <= p.sndUna <= p.sndNxt <= p.sndUna + c.sndWnd < p.sndUna + K.WINDOW_LIMIT
  {
  }

  lemma NoneAdmitted(p: K.Peer)
    ensures K.Admit(p, 0) == p
  {
    assert p.sndBuf + K.Numbered(p.sndQueue[..0], p.sndNxt) == p.sndBuf;
  }

  lemma AdmitOneMore(p: K.Peer, k: nat)
    requires k < |p.sndQueue|
    ensures var q := K.Admit(p, k);
      q.sndQueue != []
      && K.Admit(p, k + 1) == q.(sndQueue := q.sndQueue[1..], sndBuf := q.sndBuf + [K.Entry(q.sndNxt, q.sndQueue[0], 0)], sndNxt := q.sndNxt + 1)
  {
    assert K.Numbered(p.sndQueue[..k + 1], p.sndNxt)
        == K.Numbered(p.sndQueue[..k], p.sndNxt) + [K.Entry(p.sndNxt + k, p.sndQueue[k], 0)];
    assert p.sndQueue[k..][1..] == p.sndQueue[k + 1..];
  }

  lemma NoPushes(c: K.Config, p: K.Peer, o: K.Oracle, buf: seq<K.Entry>)
    ensures K.PushPackets(c, p, o, buf[..0]) == []
  {
  }

  lemma PushNext(c: K.Config, p: K.Peer, o: K.Oracle, buf: seq<K.Entry>, i: nat)
    requires i < |buf|
    ensures K.PushPackets(c, p, o, buf[..i + 1]) ==
      K.PushPackets(c, p, o, buf[..i]) + (if buf[i].xmit == 0 || buf[i].sn in o.due then [K.PushPacket(c, p, o, buf[i])] else [])
    ensures K.MarkSent(buf, o)[i] ==
      if buf[i].xmit == 0 || buf[i].sn in o.due then buf[i].(xmit := buf[i].xmit + 1) else buf[i]
  {
    hide K.PushPacket;
    assert buf[..i + 1][..i] == buf[..i];
  }

  lemma AdmittedSizes(c: K.Config, p: K.Peer, o: K.Oracle)
    requires Ok(c, p)
    ensures var buf := K.Admit(p, K.AdmitCount(c, p, o)).sndBuf; forall i :: 0 <= i < |buf| ==> |buf[i].seg.data| < HALF
  {
    hide K.Numbered;
    AppendNumbered(c, p, K.AdmitCount(c, p, o));
  }

  lemma StillOk(c: K.Config, p: K.Peer, q: K.Peer)
    requires Ok(c, p) && q == p.(acks := [], tell := false)
    ensures Ok(c, q)
  {
    SameSender(c, p, q);
    SameReceiver(c, p, q);
  }

  lemma AdmitSame(c: K.Config, p: K.Peer, o: K.Oracle)
    ensures var q := p.(acks := [], tell := false);
      && K.AdmitCount(c, q, o) == K.AdmitCount(c, p, o)
      && K.Admit(q, K.AdmitCount(c, q, o)) == K.Admit(p, K.AdmitCount(c, p, o)).(acks := [], tell := false)
  {
  }

  /** The final output of a non-empty buffer closes the last datagram. */
  lemma FinishWritten(mtu: nat, b: Buffer, ss: seq<Packet>)
    requires Written(mtu, b, ss)
    ensures AllSendable(Datagrams(mtu, ss))
    ensures (if |b.pending| > 0 then b.out + [b.pending] else b.out) == Encoded(Datagrams(mtu, ss))
  {
    hide PutAll;
    var o := PutAll(mtu, ss);
    if o.cur == [] {
      assert b.pending == [];
    } else {
      assert |b.pending| == OVERHEAD + |o.cur[0].data| + Size(o.cur[1..]);
      assert Encoded(o.done + [o.cur]) == Encoded(o.done) + [EncodeAll(o.cur)];
    }
  }
}
