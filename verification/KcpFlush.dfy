/**
 * What one ikcp_flush does, said without the functions that compute it: how far the send window is
 * filled, and which segments its datagrams carry.
 */
module KcpFlush {
  import opened Bytes
  import opened KcpWire
  import opened KcpPacking
  import opened Kcp
  import opened KcpQueues

  // ---------------------------------------------------------------- the send window

  /** The next number has reached one of the three windows. */
  ghost predicate WindowFull(c: Config, p: Peer, o: Oracle)
  {
    p.sndNxt >= p.sndUna + o.cwnd || p.sndNxt >= p.sndUna + c.sndWnd || p.sndNxt >= p.sndUna + p.rmtWnd
  }

  /** q is p with the next n queued segments in the send buffer, under the next n numbers. */
  ghost predicate Moved(p: Peer, q: Peer, n: nat)
  {
    && n <= |p.sndQueue| && q.sndNxt == p.sndNxt + n && q.sndQueue == p.sndQueue[n..]
    && |q.sndBuf| == |p.sndBuf| + n
    && (forall i :: 0 <= i < |p.sndBuf| ==> q.sndBuf[i].sn == p.sndBuf[i].sn && q.sndBuf[i].seg == p.sndBuf[i].seg)
    && (forall i :: 0 <= i < n ==> q.sndBuf[|p.sndBuf| + i] == Entry(p.sndNxt + i, p.sndQueue[i], 1))
  }

  /** Entry i of the send buffer is sent by this flush. */
  ghost predicate Due(p: Peer, o: Oracle, q: Peer, i: nat)
    requires i < |q.sndBuf|
  {
    i >= |p.sndBuf| || p.sndBuf[i].xmit == 0 || p.sndBuf[i].sn in o.due
  }

  /** The queue is emptied or the window filled, and never beyond; every segment sent is counted; what
   * has been received stays, and no acknowledgement or announcement is pending any more. */
  ghost predicate Fills(c: Config, p: Peer, o: Oracle, q: Peer)
  {
    && p.sndNxt <= q.sndNxt && Moved(p, q, q.sndNxt - p.sndNxt)
    && (q.sndQueue == [] || WindowFull(c, q, o))
    && (p.sndNxt < q.sndNxt ==>
          q.sndNxt <= q.sndUna + o.cwnd && q.sndNxt <= q.sndUna + c.sndWnd && q.sndNxt <= q.sndUna + q.rmtWnd)
    && (forall i :: 0 <= i < |p.sndBuf| ==> q.sndBuf[i].xmit == p.sndBuf[i].xmit + (if Due(p, o, q, i) then 1 else 0))
    && q == p.(sndNxt := q.sndNxt, sndQueue := q.sndQueue, sndBuf := q.sndBuf, acks := [], tell := false)
  }

  lemma FlushFills(c: Config, p: Peer, o: Oracle)
    requires Ok(c, p)
    ensures Fills(c, p, o, Flush(c, p, o))
  {
  }

  // ---------------------------------------------------------------- the datagrams

  /** The window a flush announces. */
  function Window(c: Config, p: Peer): (wnd: U16)
  {
    if |p.rcvQueue| < c.rcvWnd then (c.rcvWnd - |p.rcvQueue|) % 0x1_0000 else 0
  }

  /** A data segment as it goes out. */
  function DataOf(c: Config, p: Peer, o: Oracle, e: Entry): Packet
  {
    Packet(c.conv, 81, e.seg.frg % 256, Window(c, p), o.current, e.sn, p.rcvNxt, e.seg.data)
  }

  function AckOf(c: Config, p: Peer, a: Ack): Packet
  {
    Packet(c.conv, 82, 0, Window(c, p), a.ts, a.sn, p.rcvNxt, [])
  }

  /** A window probe or announcement; its sn and ts mean nothing. */
  ghost predicate Bare(c: Config, p: Peer, s: Packet, cmd: Byte)
  {
    s == Packet(c.conv, cmd, 0, Window(c, p), s.ts, s.sn, p.rcvNxt, [])
  }

  /** The segments ss are the data of exactly the due entries, each once, in the order of their numbers. */
  ghost predicate Pushes(c: Config, p: Peer, o: Oracle, buf: seq<Entry>, ss: seq<Packet>)
  {
    && (forall s :: s in ss ==> exists i :: 0 <= i < |buf| && Needed(buf[i], o) && s == DataOf(c, p, o, buf[i]))
    && (forall i :: 0 <= i < |buf| && Needed(buf[i], o) ==> DataOf(c, p, o, buf[i]) in ss)
    && (forall i, j :: 0 <= i < j < |ss| ==> ss[i].sn < ss[j].sn)
  }

  lemma {:induction false} PushesAll(c: Config, p: Peer, o: Oracle, buf: seq<Entry>)
    requires Sorted(buf)
    ensures Pushes(c, p, o, buf, PushPackets(c, p, o, buf))
  {
    hide Needed, Pushes, Sorted;
    if buf == [] {
      NothingPushed(c, p, o);
    } else {
      var last := |buf| - 1;
      assert buf == buf[..last] + [buf[last]];
      InitSorted(buf[..last], buf[last]);
      PushesAll(c, p, o, buf[..last]);
      PushesNext(c, p, o, buf[..last], PushPackets(c, p, o, buf[..last]), buf[last]);
    }
  }

  lemma NothingPushed(c: Config, p: Peer, o: Oracle)
    ensures Pushes(c, p, o, [], [])
  {
  }

  lemma InitSorted(init: seq<Entry>, e: Entry)
    requires Sorted(init + [e])
    ensures Sorted(init) && forall i :: 0 <= i < |init| ==> init[i].sn < e.sn
  {
    var all := init + [e];
    assert all[|init|] == e && forall i :: 0 <= i < |init| ==> all[i] == init[i];
  }

  lemma PushesNext(c: Config, p: Peer, o: Oracle, buf: seq<Entry>, ss: seq<Packet>, e: Entry)
    requires Pushes(c, p, o, buf, ss) && Sorted(buf + [e])
    ensures Pushes(c, p, o, buf + [e], ss + (if Needed(e, o) then [DataOf(c, p, o, e)] else []))
  {
    hide Needed, Window, Sorted;
    InitSorted(buf, e);
    var all, more := buf + [e], ss + (if Needed(e, o) then [DataOf(c, p, o, e)] else []);
    assert all[|buf|] == e && forall i :: 0 <= i < |buf| ==> all[i] == buf[i];
    forall s | s in more
      ensures exists i :: 0 <= i < |all| && Needed(all[i], o) && s == DataOf(c, p, o, all[i])
    {
      if s in ss {
        var i :| 0 <= i < |buf| && Needed(buf[i], o) && s == DataOf(c, p, o, buf[i]);
        assert all[i] == buf[i];
      } else {
        assert s == DataOf(c, p, o, all[|buf|]);
      }
    }
    forall j | 0 <= j < |ss|
      ensures ss[j].sn < e.sn
    {
      assert ss[j] in ss;
    }
  }

  /** What one flush sends, in order: an acknowledgement for every pending one, a window probe, a window
   * announcement, and the data segments that are due. */
  datatype Parts = Parts(acks: seq<Packet>, probes: seq<Packet>, data: seq<Packet>)

  function Whole(r: Parts): (ss: seq<Packet>)
  {
    r.acks + r.probes + r.data
  }

  ghost predicate PartsOf(c: Config, p: Peer, o: Oracle, q: Peer, r: Parts)
    requires |p.sndBuf| <= |q.sndBuf|
  {
    && |r.acks| == |p.acks| && (forall i :: 0 <= i < |p.acks| ==> r.acks[i] == AckOf(c, p, p.acks[i]))
    && |r.probes| == (if p.rmtWnd == 0 && o.probe then 1 else 0) + (if p.tell then 1 else 0)
    && (p.rmtWnd == 0 && o.probe ==> Bare(c, p, r.probes[0], 83))
    && (p.tell ==> Bare(c, p, r.probes[|r.probes| - 1], 84))
    && (forall i :: 0 <= i < |q.sndBuf| && Due(p, o, q, i) ==> DataOf(c, p, o, q.sndBuf[i]) in r.data)
    && (forall s :: s in r.data ==> exists i :: 0 <= i < |q.sndBuf| && Due(p, o, q, i) && s == DataOf(c, p, o, q.sndBuf[i]))
    && (forall i, j :: 0 <= i < j < |r.data| ==> r.data[i].sn < r.data[j].sn)
  }

  ghost function FlushParts(c: Config, p: Peer, o: Oracle): Parts
  {
    Parts(AckPackets(c, p, |p.acks|), ProbePackets(c, p, o), PushPackets(c, p, o, Admit(p, AdmitCount(c, p, o)).sndBuf))
  }

  lemma FlushIs(c: Config, p: Peer, o: Oracle)
    requires Ok(c, p)
    ensures Whole(FlushParts(c, p, o)) == FlushPackets(c, p, o)
    ensures PartsOf(c, p, o, Flush(c, p, o), FlushParts(c, p, o))
  {
    hide AdmitCount, PushPackets, SendSide, RecvSide, MarkSent, Admit;
    var n := AdmitCount(c, p, o);
    var q, r := Flush(c, p, o), FlushParts(c, p, o);
    var buf := Admit(p, n).sndBuf;
    AdmittedSorted(c, p, n, o);
    PushesAll(c, p, o, buf);
    DueIsNeeded(p, o, n);
    forall s | s in r.data
      ensures exists i :: 0 <= i < |q.sndBuf| && Due(p, o, q, i) && s == DataOf(c, p, o, q.sndBuf[i])
    {
      var i :| 0 <= i < |buf| && Needed(buf[i], o) && s == DataOf(c, p, o, buf[i]);
      assert Due(p, o, q, i) && DataOf(c, p, o, q.sndBuf[i]) == s;
    }
  }

  lemma AdmittedSorted(c: Config, p: Peer, n: nat, o: Oracle)
    requires Ok(c, p) && n == AdmitCount(c, p, o)
    ensures Sorted(Admit(p, n).sndBuf) && |Admit(p, n).sndBuf| == |p.sndBuf| + n
  {
    hide Numbered;
    AppendNumbered(c, p, n);
  }

  lemma DueIsNeeded(p: Peer, o: Oracle, n: nat)
    requires n <= |p.sndQueue|
    ensures var buf := Admit(p, n).sndBuf; var sent := MarkSent(buf, o);
      && |p.sndBuf| <= |buf| == |sent|
      && forall i :: 0 <= i < |buf| ==>
           && (Needed(buf[i], o) <==> i >= |p.sndBuf| || p.sndBuf[i].xmit == 0 || p.sndBuf[i].sn in o.due)
           && sent[i].sn == buf[i].sn && sent[i].seg == buf[i].seg
  {
    var more := Numbered(p.sndQueue[..n], p.sndNxt);
    assert forall i :: 0 <= i < n ==> more[i] == Entry(p.sndNxt + i, p.sndQueue[i], 0);
  }

  /** The datagrams ds carry exactly the parts r, whole and in order, and none is too long. */
  ghost predicate Carry(c: Config, ds: seq<seq<Packet>>, r: Parts)
  {
    Flat(ds) == Whole(r) && forall k :: 0 <= k < |ds| ==> Fits(c.mtu, ds[k])
  }

  lemma FlushSends(c: Config, p: Peer, o: Oracle) returns (r: Parts)
    requires Ok(c, p)
    ensures |p.sndBuf| <= |Flush(c, p, o).sndBuf| && PartsOf(c, p, o, Flush(c, p, o), r)
    ensures Carry(c, Datagrams(c.mtu, FlushPackets(c, p, o)), r)
  {
    hide Flush, FlushPackets, Datagrams, PartsOf, Flat, FlushParts, Whole;
    r := FlushParts(c, p, o);
    FlushFills(c, p, o);
    FlushIs(c, p, o);
    PartsFit(c, p, o, r);
    DatagramsPack(c.mtu, FlushPackets(c, p, o));
  }

  lemma PartsFit(c: Config, p: Peer, o: Oracle, r: Parts)
    requires Ok(c, p) && PartsOf(c, p, o, Flush(c, p, o), r)
    ensures forall i :: 0 <= i < |Whole(r)| ==> OVERHEAD + |Whole(r)[i].data| <= c.mtu
  {
    hide RecvSide, Flush, Due, Window;
    var q := Flush(c, p, o);
    FlushKeeps(c, p, o);
    var ss := Whole(r);
    forall i | 0 <= i < |ss|
      ensures OVERHEAD + |ss[i].data| <= c.mtu
    {
      if i < |r.acks| {
        assert ss[i] == r.acks[i];
      } else if i < |r.acks| + |r.probes| {
        assert ss[i] == r.probes[i - |r.acks|];
      } else {
        assert ss[i] == r.data[i - |r.acks| - |r.probes|] && ss[i] in r.data;
      }
    }
  }
}
