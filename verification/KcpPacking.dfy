/**
 * How ikcp_flush packs segments into datagrams: a segment that no longer fits closes the current
 * datagram, and whatever is left at the end is sent too.
 */
module KcpPacking {
  import opened Bytes
  import opened KcpWire

  datatype Out = Out(done: seq<seq<Packet>>, cur: seq<Packet>)

  function Put(mtu: nat, o: Out, s: Packet): (r: Out)
  {
    if Size(o.cur) + OVERHEAD + |s.data| > mtu then Out(o.done + [o.cur], [s]) else Out(o.done, o.cur + [s])
  }

  function PutAll(mtu: nat, ss: seq<Packet>): (r: Out)
  {
    if ss == [] then Out([], [])
    else Put(mtu, PutAll(mtu, ss[..|ss| - 1]), ss[|ss| - 1])
  }

  function Closed(o: Out): (r: seq<seq<Packet>>)
  {
    if o.cur == [] then o.done else o.done + [o.cur]
  }

  /** The datagrams for a list of segments. */
  function Datagrams(mtu: nat, ss: seq<Packet>): (r: seq<seq<Packet>>)
  {
    Closed(PutAll(mtu, ss))
  }

  function Flat(ds: seq<seq<Packet>>): (r: seq<Packet>)
  {
    if ds == [] then [] else Flat(ds[..|ds| - 1]) + ds[|ds| - 1]
  }

  lemma FlatAppend(ds: seq<seq<Packet>>, d: seq<Packet>)
    ensures Flat(ds + [d]) == Flat(ds) + d
  {
    assert (ds + [d])[..|ds|] == ds;
  }

  ghost predicate Fits(mtu: nat, d: seq<Packet>)
  {
    d != [] && Size(d) <= mtu
  }

  ghost predicate Packed(mtu: nat, o: Out, ss: seq<Packet>)
  {
    && Flat(o.done) + o.cur == ss
    && (forall k :: 0 <= k < |o.done| ==> Fits(mtu, o.done[k]))
    && Size(o.cur) <= mtu
  }

  lemma PutPacks(mtu: nat, o: Out, ss: seq<Packet>, s: Packet)
    requires Packed(mtu, o, ss) && OVERHEAD + |s.data| <= mtu
    ensures Packed(mtu, Put(mtu, o, s), ss + [s])
  {
    hide Flat;
    SizeAppend(o.cur, s);
    SizeAppend([], s);
    assert [] + [s] == [s];
    FlatAppend(o.done, o.cur);
    if Size(o.cur) + OVERHEAD + |s.data| > mtu {
      assert o.cur != [] by {
        assert Size([]) == 0;
      }
    } else {
      assert Flat(o.done) + (o.cur + [s]) == (Flat(o.done) + o.cur) + [s];
    }
  }

  lemma {:induction false} PutAllPacks(mtu: nat, ss: seq<Packet>)
    requires forall i :: 0 <= i < |ss| ==> OVERHEAD + |ss[i].data| <= mtu
    ensures Packed(mtu, PutAll(mtu, ss), ss)
  {
    hide Packed, Put;
    if ss == [] {
      assert Packed(mtu, Out([], []), []) by {
        NothingPacked(mtu);
      }
    } else {
      var last := |ss| - 1;
      PutAllPacks(mtu, ss[..last]);
      PutPacks(mtu, PutAll(mtu, ss[..last]), ss[..last], ss[last]);
      assert ss[..last] + [ss[last]] == ss;
    }
  }

  lemma NothingPacked(mtu: nat)
    ensures Packed(mtu, Out([], []), [])
  {
  }

  /** Datagrams carry every segment once and in order, hold whole segments and respect the mtu. */
  lemma DatagramsPack(mtu: nat, ss: seq<Packet>)
    requires forall i :: 0 <= i < |ss| ==> OVERHEAD + |ss[i].data| <= mtu
    ensures Flat(Datagrams(mtu, ss)) == ss
    ensures forall k :: 0 <= k < |Datagrams(mtu, ss)| ==> Fits(mtu, Datagrams(mtu, ss)[k])
  {
    hide PutAll, Flat;
    var o := PutAll(mtu, ss);
    PutAllPacks(mtu, ss);
    FlatAppend(o.done, o.cur);
  }

  /** Every segment of a datagram is one of the segments packed. */
  lemma {:induction false} FlatMembers(ds: seq<seq<Packet>>, k: nat, i: nat)
    requires k < |ds| && i < |ds[k]|
    ensures ds[k][i] in Flat(ds)
  {
    var last := |ds| - 1;
    if k < last {
      FlatMembers(ds[..last], k, i);
    }
  }

  /** Each datagram is at most mtu bytes and is decoded to exactly its segments with result 0. */
  lemma DatagramDecodes(mtu: nat, conv: U32, ss: seq<Packet>, k: nat)
    requires mtu < HALF && forall i :: 0 <= i < |ss| ==>
      OVERHEAD + |ss[i].data| <= mtu && ss[i].conv == conv && Known(ss[i].cmd)
    requires k < |Datagrams(mtu, ss)|
    ensures var d := Datagrams(mtu, ss)[k];
      && Sendable(d) && 0 < |EncodeAll(d)| <= mtu
      && Parse(conv, EncodeAll(d)) == Parsed(SeenAll(d), 0)
  {
    hide Datagrams, Parse, EncodeAll, Flat, SeenAll;
    var ds: seq<seq<Packet>> := Datagrams(mtu, ss);
    DatagramsPack(mtu, ss);
    forall i | 0 <= i < |ds[k]|
      ensures |ds[k][i].data| < HALF && ds[k][i].conv == conv && Known(ds[k][i].cmd)
    {
      FlatMembers(ds, k, i);
    }
    assert Fits(mtu, ds[k]);
    RoundTrip(conv, ds[k]);
  }
}
