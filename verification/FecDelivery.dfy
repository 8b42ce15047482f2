/**
 * Runs of the FEC decoder: the packets of any number of sent groups arrive interleaved, in any order
 * and with duplicates, between malformed packets, packets of unrelated groups with any contents and
 * calls of cleanup. Only one thing is asked: a sent group is not evicted, timed out or displaced by
 * another group with its 8-bit id while its packets arrive.
 */
module FecDelivery {
  import opened Bytes
  import opened Collections
  import opened Cm256
  import opened FecGroups
  import opened FecTable
  import S = FecStream

  /** A group that was sent: its payloads in blocks of one size. */
  datatype Sent = Sent(mode: FecMode, payloads: seq<seq<Byte>>, bytes: nat)

  type Senders = map<Byte, Sent>

  datatype Input = Received(p: seq<Byte>, now: int) | Timer(now: int)

  ghost predicate Sendable(s: Sent)
  {
    1 <= |s.payloads| <= GROUP_SIZE && forall i :: 0 <= i < |s.payloads| ==> 2 + |s.payloads[i]| <= s.bytes && |s.payloads[i]| < 0x1_0000
  }

  ghost predicate AllSendable(senders: Senders)
  {
    forall gid :: gid in senders ==> Sendable(senders[gid])
  }

  ghost function Data(s: Sent): (data: seq<seq<Byte>>)
    requires Sendable(s)
    ensures |data| == |s.payloads| && Rectangular(data, s.bytes)
  {
    Blocks(s.payloads, s.bytes)
  }

  /** The input is a packet with an acceptable header for group gid. */
  ghost predicate Of(e: Input, gid: Byte)
  {
    e.Received? && HeaderOk(e.p) && e.p[0] == gid
  }

  /** A packet for group gid is one of those the sender's flush made. */
  ghost predicate Genuine(e: Input, gid: Byte, s: Sent)
    requires Sendable(s)
  {
    Of(e, gid) ==>
      var ps := S.GroupPackets(gid, s.mode, s.payloads, s.bytes);
      e.p[1] < |ps| && e.p == ps[e.p[1]]
  }

  ghost function Apply(groups: Groups, e: Input): (r: (Groups, seq<seq<Byte>>))
    requires TableOk(groups)
  {
    match e
    case Received(p, now) => Process(groups, p, now)
    case Timer(now) => (Cleaned(groups, now), [])
  }

  /** One input of a run: a group in flight that is stored stays, one whose packet arrives is stored. */
  ghost predicate Follows(before: Groups, after: Groups, e: Input, senders: Senders)
    requires AllSendable(senders)
  {
    && TableOk(before) && after == Apply(before, e).0
    && forall gid :: gid in senders ==> Genuine(e, gid, senders[gid]) && (gid in before || Of(e, gid) ==> gid in after)
  }

  ghost predicate Run(states: seq<Groups>, inputs: seq<Input>, senders: Senders)
    decreases |inputs|
  {
    && |states| == |inputs| + 1 && AllSendable(senders)
    && if inputs == [] then forall gid :: gid in senders ==> gid !in states[0]
    else
      var n := |inputs| - 1;
      Run(states[..n + 1], inputs[..n], senders) && Follows(states[n], states[n + 1], inputs[n], senders)
  }

  // ---------------------------------------------------------------- one step

  /** What the decoder holds of a group in flight that has come to progress r. */
  ghost predicate Tracked(groups: Groups, gid: Byte, s: Sent, r: Progress)
    requires Sendable(s)
  {
    if r.stored == {} then gid !in groups && r == Start()
    else
      && gid in groups && GroupOk(groups[gid]) && Stores(groups[gid], Data(s)) && ProgressOf(groups[gid]) == r
      && groups[gid].totalCount == |s.payloads| + Recovery(s.mode, |s.payloads|) && groups[gid].blockBytes == s.bytes
  }

  lemma GenuineFields(e: Input, gid: Byte, s: Sent)
    requires Sendable(s) && Genuine(e, gid, s) && Of(e, gid)
    ensures e.p[2] == |s.payloads| && e.p[3] == |s.payloads| + Recovery(s.mode, |s.payloads|) && |e.p| - 4 == s.bytes
    ensures e.p[4..] == Encoded(Data(s), s.bytes, e.p[1])
  {
    hide Encoded, Recovery, Padded;
    var n := |s.payloads|;
    var block := Encoded(Data(s), s.bytes, e.p[1]);
    assert e.p == Packet(gid, e.p[1], n, n + Recovery(s.mode, n), block);
    assert e.p[4..] == block;
  }

  /** A packet of a group in flight: one arrival as module FecGroups has it. */
  lemma TrackedStep(before: Groups, e: Input, gid: Byte, s: Sent, r: Progress)
    requires Sendable(s) && TableOk(before) && Tracked(before, gid, s, r) && Of(e, gid) && Genuine(e, gid, s)
    requires gid in Apply(before, e).0
    ensures Tracked(Apply(before, e).0, gid, s, Arrive(|s.payloads|, r, e.p[1]).0)
    ensures Apply(before, e).1 == Emission(Data(s), r, e.p[1])
  {
    hide Encoded, Evict, Emission, Arrive, GroupOk, Stores, Recovery, Genuine, Data, Take, Fresh;
    GenuineFields(e, gid, s);
    if r.stored != {} {
      StoresMeans(before[gid], Data(s));
      TakeStep(before, gid, e.p[1], e.p[4..], s, r);
    } else if |e.p| - 4 <= MAX_BUFFERED {
      FreshOk(e.p, e.now);
      var begun := Evict(before, |e.p| - 4, true)[gid := Fresh(e.p, e.now)];
      FreshFields(e.p, e.now);
      assert TableOk(begun);
      TakeStep(begun, gid, e.p[1], e.p[4..], s, r);
    }
  }

  lemma FreshFields(p: seq<Byte>, now: int)
    requires HeaderOk(p)
    ensures var g := Fresh(p, now); g.dataCount == p[2] && g.totalCount == p[3] && g.blockBytes == |p| - 4 && !g.decoded
  {
  }

  lemma StoresMeans(g: Group, data: seq<seq<Byte>>)
    requires Stores(g, data)
    ensures |data| == g.dataCount && Rectangular(data, g.blockBytes) && 1 <= |data| <= 10
  {
  }

  lemma TakeStep(before: Groups, gid: Byte, idx: Byte, block: seq<Byte>, s: Sent, r: Progress)
    requires Sendable(s) && TableOk(before) && gid in before && ProgressOf(before[gid]) == r && Stores(before[gid], Data(s))
    requires before[gid].totalCount == |s.payloads| + Recovery(s.mode, |s.payloads|) && before[gid].blockBytes == s.bytes
    requires idx < before[gid].totalCount && |block| == s.bytes && block == Encoded(Data(s), s.bytes, idx)
    requires gid in Take(before, gid, idx, block).0
    ensures Tracked(Take(before, gid, idx, block).0, gid, s, Arrive(|s.payloads|, r, idx).0)
    ensures Take(before, gid, idx, block).1 == Emission(Data(s), r, idx)
  {
    hide Encoded, Evict, Emission, GroupOk, Stores, Recovery, Data, Arrive, Word, Next;
    var g := before[gid];
    StoresMeans(g, Data(s));
    if g.decoded || idx in g.blocks {
      SeenBefore(g, idx, Data(s));
    } else {
      NextOk(g, idx, block);
      NextStores(g, idx, block, Data(s));
      EmissionOfSender(g, idx, block, Data(s));
      NextProgress(g, idx, block);
    }
  }

  /** A block of a finished group, or one that is stored already, changes nothing. */
  lemma SeenBefore(g: Group, idx: Byte, data: seq<seq<Byte>>)
    requires GroupOk(g) && |data| == g.dataCount && (g.decoded || idx in g.blocks)
    ensures Arrive(|data|, ProgressOf(g), idx).0 == ProgressOf(g) && Emission(data, ProgressOf(g), idx) == []
    ensures Indices(g) != {}
  {
    hide Originals, Sane;
    if !g.decoded {
      assert Indices(g) + {idx as nat} == Indices(g);
      assert idx as nat in Indices(g);
    } else {
      SaneCount(g);
      assert |Indices(g)| > 0;
    }
  }

  lemma SaneCount(g: Group)
    requires Sane(g)
    ensures g.dataCount > 0
  {
  }

  lemma NextProgress(g: Group, idx: Byte, block: seq<Byte>)
    requires GroupOk(g) && !g.decoded && idx < g.totalCount && idx !in g.blocks && |block| == g.blockBytes
    ensures ProgressOf(Next(g, idx, block)) == Arrive(g.dataCount, ProgressOf(g), idx).0
    ensures Indices(Next(g, idx, block)) != {}
    ensures Next(g, idx, block).totalCount == g.totalCount && Next(g, idx, block).blockBytes == g.blockBytes
  {
    hide Originals, Sane;
    NextOk(g, idx, block);
    assert idx as nat in Indices(Next(g, idx, block));
  }

  /** Any other input leaves the group as it is. */
  lemma OtherStep(before: Groups, e: Input, gid: Byte, s: Sent, r: Progress)
    requires Sendable(s) && TableOk(before) && Tracked(before, gid, s, r) && !Of(e, gid) && (gid in before ==> gid in Apply(before, e).0)
    ensures Tracked(Apply(before, e).0, gid, s, r)
  {
    hide Evict, Emission, GroupOk, Stores, Recovery, Data, ProgressOf, Word, Age;
  }

  // ---------------------------------------------------------------- what a run emits

  /** The indices of the packets of group gid, in the order of arrival. */
  ghost function Arrivals(inputs: seq<Input>, gid: Byte): (a: seq<nat>)
  {
    if inputs == [] then []
    else
      var e := inputs[|inputs| - 1];
      Arrivals(inputs[..|inputs| - 1], gid) + (if Of(e, gid) then [e.p[1] as nat] else [])
  }

  ghost function Reached(inputs: seq<Input>, gid: Byte, n: nat): Progress
  {
    ArriveAll(n, Arrivals(inputs, gid)).0
  }

  ghost function Tagged(gid: Byte, xs: seq<nat>): (l: seq<(Byte, nat)>)
    ensures |l| == |xs| && forall k :: 0 <= k < |l| ==> l[k] == (gid, xs[k])
  {
    seq(|xs|, k requires 0 <= k < |xs| => (gid, xs[k]))
  }

  /** The originals of the groups in flight in the order in which they are emitted. */
  ghost function EmittedBy(inputs: seq<Input>, senders: Senders): (l: seq<(Byte, nat)>)
  {
    if inputs == [] then []
    else
      var init, e := inputs[..|inputs| - 1], inputs[|inputs| - 1];
      EmittedBy(init, senders) + Now(init, e, senders)
  }

  ghost function Now(init: seq<Input>, e: Input, senders: Senders): (l: seq<(Byte, nat)>)
  {
    if e.Received? && HeaderOk(e.p) && e.p[0] in senders then
      var n := |senders[e.p[0]].payloads|;
      Tagged(e.p[0], Arrive(n, Reached(init, e.p[0], n), e.p[1]).1)
    else []
  }

  /** The payloads behind a list of originals; an empty payload is not handed on. */
  ghost function Payloads(senders: Senders, l: seq<(Byte, nat)>): (out: seq<seq<Byte>>)
  {
    if l == [] then []
    else
      var (gid, i) := l[|l| - 1];
      Payloads(senders, l[..|l| - 1])
      + (if gid in senders && i < |senders[gid].payloads| && senders[gid].payloads[i] != [] then [senders[gid].payloads[i]] else [])
  }

  /** What the decoder emits on the packets of the given groups. */
  ghost function OutputOf(states: seq<Groups>, inputs: seq<Input>, ids: set<Byte>): (out: seq<seq<Byte>>)
    requires |states| == |inputs| + 1 && forall i :: 0 <= i < |inputs| ==> TableOk(states[i])
  {
    if inputs == [] then []
    else
      var n := |inputs| - 1;
      var e := inputs[n];
      OutputOf(states[..n + 1], inputs[..n], ids)
      + (if e.Received? && HeaderOk(e.p) && e.p[0] in ids then Apply(states[n], e).1 else [])
  }

  lemma {:induction false} PayloadsJoin(senders: Senders, a: seq<(Byte, nat)>, b: seq<(Byte, nat)>)
    ensures Payloads(senders, a + b) == Payloads(senders, a) + Payloads(senders, b)
  {
    if b == [] {
      assert a + b == a;
    } else {
      var init := b[..|b| - 1];
      PayloadsJoin(senders, a, init);
      assert (a + b)[..|a + b| - 1] == a + init;
    }
  }

  /** Unframed blocks are the payloads. */
  lemma {:induction false} PayloadsUnframed(senders: Senders, gid: Byte, xs: seq<nat>)
    requires gid in senders && Sendable(senders[gid]) && forall k :: 0 <= k < |xs| ==> xs[k] < |senders[gid].payloads|
    ensures PayloadsOf(Data(senders[gid]), xs) == Payloads(senders, Tagged(gid, xs))
  {
    hide PayloadOf, Padded;
    if xs != [] {
      var init, i, s := xs[..|xs| - 1], xs[|xs| - 1], senders[gid];
      PayloadsUnframed(senders, gid, init);
      PaddedPayload(s.payloads[i], s.bytes);
      assert Tagged(gid, xs)[..|xs| - 1] == Tagged(gid, init);
    }
  }

  lemma ArrivalsNext(inputs: seq<Input>, gid: Byte)
    requires inputs != []
    ensures var init, e := inputs[..|inputs| - 1], inputs[|inputs| - 1];
      && (Of(e, gid) ==> Arrivals(inputs, gid) == Arrivals(init, gid) + [e.p[1] as nat])
      && (!Of(e, gid) ==> Arrivals(inputs, gid) == Arrivals(init, gid))
  {
  }

  lemma ArriveAllNext(n: nat, arrivals: seq<nat>, i: nat)
    ensures var before := ArriveAll(n, arrivals); var now := Arrive(n, before.0, i);
      ArriveAll(n, arrivals + [i]) == (now.0, before.1 + now.1)
  {
    hide Arrive;
    assert (arrivals + [i])[..|arrivals|] == arrivals;
  }

  /** The decoder keeps track of every group in flight, and its output on their packets is the list. */
  lemma {:induction false} Tracks(states: seq<Groups>, inputs: seq<Input>, senders: Senders)
    requires Run(states, inputs, senders)
    ensures forall i :: 0 <= i < |inputs| ==> TableOk(states[i])
    ensures forall gid :: gid in senders ==> Tracked(states[|inputs|], gid, senders[gid], Reached(inputs, gid, |senders[gid].payloads|))
    ensures OutputOf(states, inputs, senders.Keys) == Payloads(senders, EmittedBy(inputs, senders))
    decreases |inputs|
  {
    hide Tracked, Follows, ArriveAll, Sendable, TableOk, Payloads, Now, Apply, Of, HeaderOk;
    if inputs == [] {
      NothingYet(states[0], senders);
    } else {
      var n := |inputs| - 1;
      var init, e := inputs[..n], inputs[n];
      Tracks(states[..n + 1], init, senders);
      FollowsMeans(states[n], states[n + 1], e, senders);
      forall i | 0 <= i < |inputs|
        ensures TableOk(states[i])
      {
        if i < n {
          assert states[..n + 1][i] == states[i];
        }
      }
      forall gid | gid in senders
        ensures Tracked(states[n + 1], gid, senders[gid], Reached(inputs, gid, |senders[gid].payloads|))
      {
        OneGroup(states[n], states[n + 1], inputs, gid, senders);
      }
      NowIsOutput(states[n], states[n + 1], init, e, senders);
      PayloadsJoin(senders, EmittedBy(init, senders), Now(init, e, senders));
    }
  }

  lemma NothingYet(groups: Groups, senders: Senders)
    requires AllSendable(senders) && forall gid :: gid in senders ==> gid !in groups
    ensures forall gid :: gid in senders ==> Tracked(groups, gid, senders[gid], Reached([], gid, |senders[gid].payloads|))
    ensures Payloads(senders, EmittedBy([], senders)) == []
  {
  }

  lemma FollowsMeans(before: Groups, after: Groups, e: Input, senders: Senders)
    requires AllSendable(senders) && Follows(before, after, e, senders)
    ensures TableOk(before) && after == Apply(before, e).0
    ensures forall gid :: gid in senders ==> Sendable(senders[gid])
  {
  }

  lemma OneGroup(before: Groups, after: Groups, inputs: seq<Input>, gid: Byte, senders: Senders)
    requires AllSendable(senders) && inputs != [] && gid in senders && Follows(before, after, inputs[|inputs| - 1], senders)
    requires Tracked(before, gid, senders[gid], Reached(inputs[..|inputs| - 1], gid, |senders[gid].payloads|))
    ensures Tracked(after, gid, senders[gid], Reached(inputs, gid, |senders[gid].payloads|))
  {
    hide Tracked, Sendable, TableOk, Apply, Genuine, Arrive, Of, HeaderOk;
    var init, e, n := inputs[..|inputs| - 1], inputs[|inputs| - 1], |senders[gid].payloads|;
    ArrivalsNext(inputs, gid);
    if Of(e, gid) {
      TrackedStep(before, e, gid, senders[gid], Reached(init, gid, n));
      OfMeans(e, gid);
      ArriveAllNext(n, Arrivals(init, gid), e.p[1]);
    } else {
      OtherStep(before, e, gid, senders[gid], Reached(init, gid, n));
    }
  }

  lemma OfMeans(e: Input, gid: Byte)
    requires Of(e, gid)
    ensures e.Received? && |e.p| > 4 && e.p[0] == gid
  {
  }

  lemma NowIsOutput(before: Groups, after: Groups, init: seq<Input>, e: Input, senders: Senders)
    requires AllSendable(senders) && Follows(before, after, e, senders)
    requires forall gid :: gid in senders ==> Tracked(before, gid, senders[gid], Reached(init, gid, |senders[gid].payloads|))
    ensures Payloads(senders, Now(init, e, senders))
      == if e.Received? && HeaderOk(e.p) && e.p[0] in senders then Apply(before, e).1 else []
  {
    hide Tracked, TableOk, Apply, Genuine, Arrive, PayloadsOf, Payloads, Sendable, ArriveAll;
    if e.Received? && HeaderOk(e.p) && e.p[0] in senders {
      var gid := e.p[0];
      var s := senders[gid];
      var r := Reached(init, gid, |s.payloads|);
      TrackedStep(before, e, gid, s, r);
      ArriveInside(|s.payloads|, r, e.p[1]);
      PayloadsUnframed(senders, gid, Arrive(|s.payloads|, r, e.p[1]).1);
    } else {
      NoneListed(senders);
    }
  }

  lemma NoneListed(senders: Senders)
    ensures Payloads(senders, []) == []
  {
  }

  // ---------------------------------------------------------------- which payloads, and how often

  ghost predicate NoneTwice(l: seq<(Byte, nat)>)
  {
    forall i, j :: 0 <= i < j < |l| ==> l[i] != l[j]
  }

  lemma {:induction false} Listed(inputs: seq<Input>, senders: Senders, gid: Byte, i: nat)
    requires gid in senders
    ensures (gid, i) in EmittedBy(inputs, senders) <==> i in ArriveAll(|senders[gid].payloads|, Arrivals(inputs, gid)).1
  {
    hide Arrive, HeaderOk;
    if inputs != [] {
      var init, e, n := inputs[..|inputs| - 1], inputs[|inputs| - 1], |senders[gid].payloads|;
      Listed(init, senders, gid, i);
      ArrivalsNext(inputs, gid);
      if Of(e, gid) {
        OfMeans(e, gid);
        ArriveAllNext(n, Arrivals(init, gid), e.p[1]);
        TaggedHas(gid, Arrive(n, Reached(init, gid, n), e.p[1]).1, i);
      } else {
        NowElsewhere(init, e, senders, gid, i);
      }
    }
  }

  lemma TaggedHas(gid: Byte, xs: seq<nat>, i: nat)
    ensures (gid, i) in Tagged(gid, xs) <==> i in xs
  {
    if i in xs {
      var k :| 0 <= k < |xs| && xs[k] == i;
      assert Tagged(gid, xs)[k] == (gid, i);
    }
  }

  lemma NowElsewhere(init: seq<Input>, e: Input, senders: Senders, gid: Byte, i: nat)
    requires !Of(e, gid)
    ensures (gid, i) !in Now(init, e, senders)
  {
    hide Arrive;
  }

  lemma {:induction false} EmittedOnce(inputs: seq<Input>, senders: Senders)
    requires AllSendable(senders)
    ensures NoneTwice(EmittedBy(inputs, senders))
    ensures forall p :: p in EmittedBy(inputs, senders) ==> p.0 in senders
  {
    hide NoneTwice, Now;
    if inputs == [] {
      EmptyList();
    } else {
      var init, e := inputs[..|inputs| - 1], inputs[|inputs| - 1];
      EmittedOnce(init, senders);
      NowIsNew(init, e, senders);
      JoinedOnce(EmittedBy(init, senders), Now(init, e, senders));
    }
  }

  lemma EmptyList()
    ensures NoneTwice([])
  {
  }

  lemma JoinedOnce(a: seq<(Byte, nat)>, b: seq<(Byte, nat)>)
    requires NoneTwice(a) && NoneTwice(b) && forall p :: p in b ==> p !in a
    ensures NoneTwice(a + b)
  {
    forall i, j | 0 <= i < j < |a + b|
      ensures (a + b)[i] != (a + b)[j]
    {
      if i < |a| <= j {
        assert b[j - |a|] in b && a[i] in a;
      }
    }
  }

  /** What one input makes the decoder emit has not been emitted before. */
  lemma NowIsNew(init: seq<Input>, e: Input, senders: Senders)
    requires AllSendable(senders)
    ensures NoneTwice(Now(init, e, senders))
    ensures forall p :: p in Now(init, e, senders) ==> p.0 in senders && p !in EmittedBy(init, senders)
  {
    hide Arrive, EmittedBy, ArriveAll, Emitted, Of;
    if e.Received? && HeaderOk(e.p) && e.p[0] in senders {
      var gid, idx := e.p[0], e.p[1];
      var n := |senders[gid].payloads|;
      var before := ArriveAll(n, Arrivals(init, gid));
      var now := Arrive(n, before.0, idx).1;
      SentSome(senders, gid);
      ArriveAllNext(n, Arrivals(init, gid), idx);
      ArriveAllEmits(n, Arrivals(init, gid) + [idx as nat]);
      SplitOnce(n, ArriveAll(n, Arrivals(init, gid) + [idx as nat]).0, before.1, now);
      forall p | p in Now(init, e, senders)
        ensures p.0 in senders && p !in EmittedBy(init, senders)
      {
        Listed(init, senders, gid, p.1);
      }
    }
  }

  lemma SentSome(senders: Senders, gid: Byte)
    requires AllSendable(senders) && gid in senders
    ensures |senders[gid].payloads| > 0
  {
  }

  lemma SplitOnce(n: nat, r: Progress, a: seq<nat>, b: seq<nat>)
    requires Emitted(n, r, a + b)
    ensures NoTwice(b) && forall x :: x in b ==> x !in a
  {
    forall i, j | 0 <= i < j < |b|
      ensures b[i] != b[j]
    {
      assert (a + b)[|a| + i] == b[i] && (a + b)[|a| + j] == b[j];
    }
    forall x | x in b
      ensures x !in a
    {
      var j :| 0 <= j < |b| && b[j] == x;
      assert (a + b)[|a| + j] == x;
      assert forall i :: 0 <= i < |a| ==> (a + b)[i] == a[i];
    }
  }

  /** The packets of the groups in flight may arrive in any order, with duplicates and among other
   * traffic: the decoder emits, on these packets, exactly the payloads of a list of originals that
   * has none twice, and has original i of a group exactly when its own block has arrived or as many
   * different blocks of the group as it has originals. */
  lemma Delivered(states: seq<Groups>, inputs: seq<Input>, senders: Senders) returns (l: seq<(Byte, nat)>)
    requires Run(states, inputs, senders)
    ensures forall i :: 0 <= i < |inputs| ==> TableOk(states[i])
    ensures OutputOf(states, inputs, senders.Keys) == Payloads(senders, l)
    ensures NoneTwice(l) && forall p :: p in l ==> p.0 in senders
    ensures forall gid, i: nat :: gid in senders ==> var a := Arrivals(inputs, gid); var n := |senders[gid].payloads|;
      ((gid, i) in l <==> i < n && (i in a || |Arrived(a)| >= n))
  {
    hide EmittedBy, OutputOf, Payloads, ArriveAll, Sendable, NoneTwice, Tracked, Follows, Arrivals;
    Tracks(states, inputs, senders);
    EmittedOnce(inputs, senders);
    l := EmittedBy(inputs, senders);
    forall gid, i: nat | gid in senders
      ensures var a := Arrivals(inputs, gid); var n := |senders[gid].payloads|;
        ((gid, i) in l <==> i < n && (i in a || |Arrived(a)| >= n))
    {
      SentSome(senders, gid);
      Listed(inputs, senders, gid, i);
      GroupDelivery(|senders[gid].payloads|, Arrivals(inputs, gid));
    }
  }

  /** When every acceptable packet is one of a group in flight, that is all the decoder emits. */
  lemma {:induction false} NothingElse(states: seq<Groups>, inputs: seq<Input>, ids: set<Byte>)
    requires |states| == |inputs| + 1 && forall i :: 0 <= i < |inputs| ==> TableOk(states[i])
    requires forall i :: 0 <= i < |inputs| && inputs[i].Received? && HeaderOk(inputs[i].p) ==> inputs[i].p[0] in ids
    ensures Whole(states, inputs) == OutputOf(states, inputs, ids)
    decreases |inputs|
  {
    hide Take, Evict, Clashes, TableOk;
    if inputs != [] {
      var n := |inputs| - 1;
      NothingElse(states[..n + 1], inputs[..n], ids);
    }
  }

  ghost function Whole(states: seq<Groups>, inputs: seq<Input>): (out: seq<seq<Byte>>)
    requires |states| == |inputs| + 1 && forall i :: 0 <= i < |inputs| ==> TableOk(states[i])
  {
    if inputs == [] then []
    else
      var n := |inputs| - 1;
      Whole(states[..n + 1], inputs[..n]) + Apply(states[n], inputs[n]).1
  }
}
