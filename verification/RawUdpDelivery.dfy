/**
 * Runs of a receiving raw UDP tunnel: the fragments of any number of packets arrive interleaved, in
 * any order and with duplicates; nothing is evicted and nothing times out.
 */
module RawUdpDelivery {
  import opened Bytes
  import opened RawUdpFragments
  import opened RawUdpTunnel

  ghost function Indices(frags: Fragments): (s: set<nat>)
    ensures forall i :: i in s <==> i in frags
    ensures |s| == |frags|
  {
    var s: set<nat> := frags.Keys;
    assert |frags.Keys| == |frags|;
    s
  }

  /** The packets can be sent, each has a message id of its own, and none that fits one fragment is
   * taken for a keepalive or a latency probe. */
  ghost predicate Sendable(packets: Packets, size: nat)
    requires size > 0
  {
    forall id :: id in packets ==>
      && packets[id] != [] && |packets[id]| < 0x1_0000 && CountOf(packets, size, id) <= 255
      && (CountOf(packets, size, id) == 1 ==> !Control(packets[id]))
  }

  /** What the table holds of message id after the fragments r of packet p have arrived. */
  ghost predicate Tracked(table: Table, id: U16, p: seq<Byte>, r: set<nat>, size: nat)
    requires size > 0
  {
    if r == {} || |r| >= Count(|p|, size) then id !in table
    else id in table && Holds(table[id], p, r, size)
  }

  ghost predicate Holds(e: Entry, p: seq<Byte>, r: set<nat>, size: nat)
    requires size > 0
  {
    && e.totalLen == |p| && e.total == Count(|p|, size) && Indices(e.fragments) == r
    && forall k :: k in e.fragments ==> k < |Pieces(p, size)| && e.fragments[k] == Pieces(p, size)[k]
  }

  /** A fragment of a packet of several pieces is added to what is held. */
  lemma KeptHolds(table: Table, id: U16, p: seq<Byte>, r: set<nat>, size: nat, i: nat, now: int)
    requires 0 < size && |p| < 0x1_0000 && i < Count(|p|, size) <= 255 && Tracked(table, id, p, r, size) && |r| < Count(|p|, size)
    ensures var kept := Kept(table, FragmentOf(p, size, id, i), now);
      && Indices(kept) == r + {i}
      && forall k :: k in kept ==> k < |Pieces(p, size)| && kept[k] == Pieces(p, size)[k]
  {
    hide Count, Pieces;
    PiecesShape(p, size);
  }

  /** One arrival: the fragment does not clash, and the packet is delivered when it is complete. */
  lemma TrackedStep(table: Table, id: U16, p: seq<Byte>, r: set<nat>, size: nat, i: nat, now: int)
    requires 0 < size && |p| < 0x1_0000 && i < Count(|p|, size) <= 255 && Tracked(table, id, p, r, size) && |r| < Count(|p|, size)
    requires forall x :: x in r ==> x < Count(|p|, size)
    requires Count(|p|, size) == 1 ==> !Control(p)
    ensures var (after, out) := Process(table, FragmentOf(p, size, id, i), now);
      && Tracked(after, id, p, r + {i}, size)
      && out == (if |r + {i}| >= Count(|p|, size) then [p] else [])
      && (forall k :: k != id ==> (k in after <==> k in table) && (k in table ==> after[k] == table[k]))
    ensures Count(|p|, size) > 1 ==> !Clashes(table, FragmentOf(p, size, id, i))
  {
    hide Count, Pieces, Kept, Assembled, Indices;
    PiecesShape(p, size);
    if Count(|p|, size) == 1 {
      SinglePiece(p, size);
    } else {
      KeptHolds(table, id, p, r, size, i, now);
      var kept := Kept(table, FragmentOf(p, size, id, i), now);
      assert |kept| == |r + {i}|;
      if |kept| >= Count(|p|, size) {
        KeptWhole(kept, p, size);
      }
    }
  }

  lemma SinglePiece(p: seq<Byte>, size: nat)
    requires size > 0 && |Pieces(p, size)| == 1
    ensures Pieces(p, size)[0] == p
  {
    PiecesJoin(p, size);
    var d := Pieces(p, size)[0];
    assert Pieces(p, size) == [d];
    assert Join([d]) == d + Join([]);
  }

  lemma KeptWhole(kept: Fragments, p: seq<Byte>, size: nat)
    requires size > 0 && |kept| >= |Pieces(p, size)| && |Pieces(p, size)| <= 255
    requires forall k :: k in kept ==> k < |Pieces(p, size)| && kept[k] == Pieces(p, size)[k]
    ensures Assembled(kept, |Pieces(p, size)|) == p
  {
    hide Pieces, Assembled;
    assert |kept.Keys| == |kept|;
    AllThere(kept.Keys, |Pieces(p, size)|);
    AssembledPacket(kept, p, size);
  }

  // ---------------------------------------------------------------- runs

  ghost predicate Tracks(table: Table, events: seq<Event>, packets: Packets, size: nat)
    requires size > 0
  {
    forall id :: id in packets ==> Tracked(table, id, packets[id], Received(events, id), size)
  }

  /** The table and the output before and after each arrival. */
  ghost predicate Run(tables: seq<Table>, outs: seq<seq<seq<Byte>>>, times: seq<int>, events: seq<Event>, packets: Packets, size: nat)
    requires size > 0
    decreases |events|
  {
    && |tables| == |outs| == |events| + 1 && |times| == |events|
    && Interleaving(events, packets, size) && Sendable(packets, size)
    && if events == [] then forall id :: id in packets ==> id !in tables[0]
    else
      var n := |events| - 1;
      && Run(tables[..n + 1], outs[..n + 1], times[..n], events[..n], packets, size)
      && Arrives(tables[n], tables[n + 1], outs[n], outs[n + 1], times[n], events[n], packets, size)
  }

  ghost predicate Arrives(before: Table, after: Table, out: seq<seq<Byte>>, out': seq<seq<Byte>>, now: int, e: Event, packets: Packets, size: nat)
    requires size > 0 && Sendable(packets, size) && e.id in packets && e.index < CountOf(packets, size, e.id)
  {
    var r := Process(before, FragmentOf(packets[e.id], size, e.id, e.index), now);
    after == r.0 && out' == out + r.1
  }

  ghost function PacketsOf(packets: Packets, ids: seq<U16>): (out: seq<seq<Byte>>)
  {
    if ids == [] then []
    else PacketsOf(packets, ids[..|ids| - 1]) + (if ids[|ids| - 1] in packets then [packets[ids[|ids| - 1]]] else [])
  }

  lemma PacketsNext(packets: Packets, ids: seq<U16>, id: U16)
    requires id in packets
    ensures PacketsOf(packets, ids + [id]) == PacketsOf(packets, ids) + [packets[id]]
  {
    assert (ids + [id])[..|ids|] == ids;
  }

  lemma {:induction false} ReceivedBound(events: seq<Event>, packets: Packets, size: nat, id: U16)
    requires size > 0 && Interleaving(events, packets, size) && id in packets
    ensures forall x :: x in Received(events, id) ==> x < CountOf(packets, size, id)
  {
    hide CountOf;
    if events != [] {
      ReceivedBound(events[..|events| - 1], packets, size, id);
    }
  }

  lemma CountPositive(packets: Packets, size: nat, id: U16)
    requires size > 0 && Sendable(packets, size) && id in packets
    ensures 0 < CountOf(packets, size, id) <= 255
  {
    CountBounds(|packets[id]|, size);
  }

  /** The table keeps track of every message through one arrival. */
  lemma TracksStep(before: Table, after: Table, out: seq<seq<Byte>>, out': seq<seq<Byte>>, now: int, init: seq<Event>, e: Event,
    packets: Packets, size: nat)
    requires size > 0 && Sendable(packets, size) && Interleaving(init, packets, size) && Pending(init, e, packets, size)
    requires Tracks(before, init, packets, size) && Arrives(before, after, out, out', now, e, packets, size)
    ensures Tracks(after, init + [e], packets, size)
    ensures out' == out + (if |Received(init + [e], e.id)| >= CountOf(packets, size, e.id) then [packets[e.id]] else [])
  {
    hide Process, Sendable, FragmentOf, Count, Interleaving, Received, Tracked;
    CountPositive(packets, size, e.id);
    ReceivedBound(init, packets, size, e.id);
    SendableMeans(packets, size, e.id);
    TrackedStep(before, e.id, packets[e.id], Received(init, e.id), size, e.index, now);
    forall id | id in packets
      ensures Tracked(after, id, packets[id], Received(init + [e], id), size)
    {
      ReceivedNext(init, e, id);
      if id != e.id {
        assert Received(init, id) + {} == Received(init, id);
        Untouched(before, after, id, packets[id], Received(init, id), size);
      }
    }
    ReceivedNext(init, e, e.id);
  }

  lemma Untouched(before: Table, after: Table, id: U16, p: seq<Byte>, r: set<nat>, size: nat)
    requires size > 0 && Tracked(before, id, p, r, size) && (id in after <==> id in before) && (id in before ==> after[id] == before[id])
    ensures Tracked(after, id, p, r, size)
  {
  }

  lemma SendableMeans(packets: Packets, size: nat, id: U16)
    requires size > 0 && Sendable(packets, size) && id in packets
    ensures |packets[id]| < 0x1_0000 && (CountOf(packets, size, id) == 1 ==> !Control(packets[id]))
  {
  }

  lemma ReceivedNext(init: seq<Event>, e: Event, id: U16)
    ensures Received(init + [e], id) == Received(init, id) + (if e.id == id then {e.index} else {})
  {
    assert (init + [e])[..|init|] == init;
  }

  lemma CompletedNext(events: seq<Event>, packets: Packets, size: nat)
    requires size > 0 && events != [] && Interleaving(events, packets, size) && Sendable(packets, size)
    ensures var init, id := events[..|events| - 1], events[|events| - 1].id;
      && Interleaving(init, packets, size) && id in packets
      && PacketsOf(packets, Completed(events, packets, size)) == PacketsOf(packets, Completed(init, packets, size))
        + (if |Received(events, id)| >= CountOf(packets, size, id) then [packets[id]] else [])
  {
    hide CountOf, Received, PacketsOf, Sendable;
    var init, id := events[..|events| - 1], events[|events| - 1].id;
    CountPositive(packets, size, id);
    CompletedOnce(events, packets, size, id);
    if |Received(events, id)| >= CountOf(packets, size, id) {
      PacketsNext(packets, Completed(init, packets, size), id);
    } else {
      assert Completed(init, packets, size) + [] == Completed(init, packets, size);
    }
  }

  /** Whatever the order, the output grows by exactly the completed packets, byte for byte; by
   * CompletedOnce each is among them once as soon as all its fragments have arrived. */
  lemma {:induction false} Delivered(tables: seq<Table>, outs: seq<seq<seq<Byte>>>, times: seq<int>, events: seq<Event>, packets: Packets,
    size: nat)
    requires size > 0 && Run(tables, outs, times, events, packets, size)
    ensures Interleaving(events, packets, size)
    ensures outs[|events|] == outs[0] + PacketsOf(packets, Completed(events, packets, size))
    ensures Tracks(tables[|events|], events, packets, size)
    decreases |events|
  {
    hide Tracked, Arrives, Received, PacketsOf, Interleaving, Sendable, CountOf;
    if events == [] {
      NothingYet(tables[0], events, packets, size);
      assert outs[0] + [] == outs[0];
    } else {
      var n := |events| - 1;
      var e := events[n];
      Delivered(tables[..n + 1], outs[..n + 1], times[..n], events[..n], packets, size);
      LastPending(events, packets, size);
      TracksStep(tables[n], tables[n + 1], outs[n], outs[n + 1], times[n], events[..n], e, packets, size);
      assert events[..n] + [e] == events;
      CompletedNext(events, packets, size);
    }
  }

  lemma NothingYet(table: Table, events: seq<Event>, packets: Packets, size: nat)
    requires size > 0 && events == [] && forall id :: id in packets ==> id !in table
    ensures Tracks(table, events, packets, size) && Interleaving(events, packets, size)
    ensures PacketsOf(packets, Completed(events, packets, size)) == []
  {
  }

  lemma LastPending(events: seq<Event>, packets: Packets, size: nat)
    requires size > 0 && events != [] && Interleaving(events, packets, size)
    ensures Interleaving(events[..|events| - 1], packets, size)
    ensures Pending(events[..|events| - 1], events[|events| - 1], packets, size)
  {
  }
}
