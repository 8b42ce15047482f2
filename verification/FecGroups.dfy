/**
 * FEC groups as values: the framing of payloads into equal blocks, the packets of a group, and
 * what a decoder that stores every block emits, for every order of arrival with duplicates.
 */
module FecGroups {
  import opened Bytes
  import opened Collections
  import opened Cm256
  import opened Cauchy

  const GROUP_SIZE: nat := 10

  datatype FecMode = FEC_NONE | FEC_10 | FEC_30 | FEC_50 | FEC_70 | FEC_100 | FEC_200

  /** fecParityCount */
  function ParityCount(mode: FecMode, n: nat): (m: nat)
  {
    match mode
    case FEC_10 => (n * 1 + 9) / 10
    case FEC_30 => (n * 3 + 9) / 10
    case FEC_50 => (n * 5 + 9) / 10
    case FEC_70 => (n * 7 + 9) / 10
    case FEC_100 => n
    case FEC_200 => n * 2
    case FEC_NONE => 0
  }

  /** The recovery blocks flush makes for n payloads. */
  function Recovery(mode: FecMode, n: nat): (m: nat)
    ensures m > 0
  {
    if ParityCount(mode, n) <= 0 then 1 else ParityCount(mode, n)
  }

  /** The share of recovery blocks of each mode, rounded up, and at least one: how many packets of a group
   * of n payloads may be lost. */
  lemma RecoveryMeans(mode: FecMode, n: nat)
    requires n > 0
    ensures var r := Recovery(mode, n);
      && (mode == FEC_10 ==> 10 * (r - 1) < n <= 10 * r)
      && (mode == FEC_30 ==> 10 * (r - 1) < 3 * n <= 10 * r)
      && (mode == FEC_50 ==> 10 * (r - 1) < 5 * n <= 10 * r)
      && (mode == FEC_70 ==> 10 * (r - 1) < 7 * n <= 10 * r)
      && (mode == FEC_100 ==> r == n) && (mode == FEC_200 ==> r == 2 * n) && (mode == FEC_NONE ==> r == 1)
  {
  }

  // ---------------------------------------------------------------- packets

  /** FecHeader, then the block. */
  function Packet(group: Byte, index: Byte, dataCount: Byte, totalCount: Byte, block: seq<Byte>): (p: seq<Byte>)
  {
    [group, index, dataCount, totalCount] + block
  }

  /** The checks addPacket makes before it looks at its groups. */
  predicate HeaderOk(p: seq<Byte>)
  {
    |p| > 4 && 1 <= p[2] <= 10 && p[2] <= p[3] <= 3 * (p[2] as int) && p[1] < p[3]
  }

  /** Every packet of a group of at most ten payloads passes the decoder's checks. */
  lemma HeadersPass(mode: FecMode, group: Byte, n: Byte, index: Byte, block: seq<Byte>)
    requires 1 <= n <= GROUP_SIZE && index < n + Recovery(mode, n) && block != []
    ensures n + Recovery(mode, n) <= 3 * (n as int) && n + Recovery(mode, n) < 256
    ensures HeaderOk(Packet(group, index, n, n + Recovery(mode, n), block))
  {
  }

  // ---------------------------------------------------------------- framing

  /** A payload behind its 16-bit length, filled up with zeros. */
  function Padded(p: seq<Byte>, bytes: nat): (b: seq<Byte>)
    requires 2 + |p| <= bytes
    ensures |b| == bytes
  {
    var len: int := |p| % 0x1_0000;
    [len / 256, len % 256] + p + seq(bytes - 2 - |p|, i => 0)
  }

  /** What emitOriginalBlock hands on: nothing for an empty payload or an impossible length. */
  function PayloadOf(block: seq<Byte>): (out: seq<seq<Byte>>)
    ensures |out| <= 1
  {
    if |block| < 2 then []
    else
      var hi: int, lo: int := block[0], block[1];
      var len := 256 * hi + lo;
      if len > 0 && 2 + len <= |block| then [block[2..2 + len]] else []
  }

  /** Framing keeps every payload that is not empty and has a 16-bit length; an empty one is dropped. */
  lemma PaddedPayload(p: seq<Byte>, bytes: nat)
    requires 2 + |p| <= bytes
    ensures PayloadOf(Padded(p, bytes)) == (if p == [] then [] else [p]) <==> |p| < 0x1_0000
  {
    var b := Padded(p, bytes);
    var len: int := |p| % 0x1_0000;
    assert b[0] == len / 256 && b[1] == len % 256;
    if |p| < 0x1_0000 {
      assert b[2..2 + |p|] == p;
    } else if PayloadOf(b) != [] {
      assert |PayloadOf(b)[0]| == len < |p|;
    }
  }

  /** The blocks of a group of payloads. */
  ghost function Blocks(payloads: seq<seq<Byte>>, bytes: nat): (data: seq<seq<Byte>>)
    requires forall i :: 0 <= i < |payloads| ==> 2 + |payloads[i]| <= bytes
    ensures |data| == |payloads| && forall i :: 0 <= i < |data| ==> data[i] == Padded(payloads[i], bytes)
  {
    seq(|payloads|, i requires 0 <= i < |payloads| => Padded(payloads[i], bytes))
  }

  // ---------------------------------------------------------------- the life of one group

  /** The indices stored so far, and whether the group is finished. */
  datatype Progress = Progress(stored: set<nat>, decoded: bool)

  function Start(): Progress
  {
    Progress({}, false)
  }

  /** A block of a group of n originals arrives; the originals emitted because of it. */
  ghost function Arrive(n: nat, s: Progress, index: nat): (r: (Progress, seq<nat>))
  {
    if s.decoded then (s, [])
    else
      var stored := s.stored + {index};
      var first := AtOnce(n, s, index);
      if |stored| >= n then (Progress(stored, true), first + Missing(n, stored)) else (Progress(stored, false), first)
  }

  /** All arrivals of a group, in order, with duplicates. */
  ghost function ArriveAll(n: nat, arrivals: seq<nat>): (r: (Progress, seq<nat>))
  {
    if arrivals == [] then (Start(), [])
    else
      var before := ArriveAll(n, arrivals[..|arrivals| - 1]);
      var now := Arrive(n, before.0, arrivals[|arrivals| - 1]);
      (now.0, before.1 + now.1)
  }

  ghost function Arrived(arrivals: seq<nat>): (s: set<nat>)
  {
    set a | a in arrivals
  }

  ghost predicate NoTwice(xs: seq<nat>)
  {
    forall i, j :: 0 <= i < j < |xs| ==> xs[i] != xs[j]
  }

  /** What has been emitted at any moment: the originals that arrived, or all originals once n
   * different blocks have arrived. */
  ghost predicate Emitted(n: nat, s: Progress, out: seq<nat>)
  {
    && NoTwice(out)
    && (forall i: nat :: i in out <==> i < n && (s.decoded || i in s.stored))
    && (s.decoded <==> |s.stored| >= n)
  }

  lemma AppendDistinct(a: seq<nat>, b: seq<nat>)
    requires NoTwice(a) && NoTwice(b) && forall i: nat :: i in a ==> i !in b
    ensures NoTwice(a + b)
    ensures forall i: nat :: i in a + b <==> i in a || i in b
  {
    forall i, j | 0 <= i < j < |a + b|
      ensures (a + b)[i] != (a + b)[j]
    {
      if i < |a| <= j {
        assert a[i] in a && b[j - |a|] in b;
      }
    }
  }

  /** The originals emitted at once, on arrival. */
  ghost function AtOnce(n: nat, s: Progress, index: nat): (first: seq<nat>)
  {
    if index !in s.stored && index < n then [index] else []
  }

  lemma AtOnceKeeps(n: nat, s: Progress, out: seq<nat>, index: nat)
    requires Emitted(n, s, out) && !s.decoded
    ensures NoTwice(out + AtOnce(n, s, index))
    ensures forall i: nat :: i in out + AtOnce(n, s, index) <==> i < n && i in s.stored + {index}
  {
    AppendDistinct(out, AtOnce(n, s, index));
  }

  /** A block that is not a known original adds what has not been emitted. */
  lemma ArriveKeeps(n: nat, s: Progress, out: seq<nat>, index: nat)
    requires 0 < n && Emitted(n, s, out)
    ensures Emitted(n, Arrive(n, s, index).0, out + Arrive(n, s, index).1)
  {
    hide AtOnce, Missing, NoTwice;
    if s.decoded {
      assert out + [] == out;
    } else {
      var stored, first := s.stored + {index}, AtOnce(n, s, index);
      AtOnceKeeps(n, s, out, index);
      if |stored| >= n {
        Completed(n, stored, out + first);
        assert (out + first) + Missing(n, stored) == out + (first + Missing(n, stored));
      }
    }
  }

  lemma Completed(n: nat, stored: set<nat>, out: seq<nat>)
    requires |stored| >= n && NoTwice(out) && forall i: nat :: i in out <==> i < n && i in stored
    ensures Emitted(n, Progress(stored, true), out + Missing(n, stored))
  {
    hide Missing;
    MissingAll(n, stored);
    AppendDistinct(out, Missing(n, stored));
  }

  /** Missing lists every index below n that is not stored, once. */
  lemma {:induction false} MissingAll(n: nat, stored: set<nat>)
    ensures NoTwice(Missing(n, stored)) && forall i: nat :: i in Missing(n, stored) <==> i < n && i !in stored
  {
    if n > 0 {
      MissingAll(n - 1, stored);
      var last: seq<nat> := if n - 1 in stored then [] else [n - 1];
      AppendDistinct(Missing(n - 1, stored), last);
    }
  }

  lemma {:induction false} ArriveAllEmits(n: nat, arrivals: seq<nat>)
    requires 0 < n
    ensures var r := ArriveAll(n, arrivals); Emitted(n, r.0, r.1)
    ensures var r := ArriveAll(n, arrivals); r.0.stored <= Arrived(arrivals)
    ensures var r := ArriveAll(n, arrivals); !r.0.decoded ==> r.0.stored == Arrived(arrivals)
  {
    hide Arrive, Emitted;
    if arrivals == [] {
      assert Emitted(n, Start(), []) by {
        NothingEmitted(n);
      }
    } else {
      var init, last := arrivals[..|arrivals| - 1], arrivals[|arrivals| - 1];
      ArriveAllEmits(n, init);
      var before := ArriveAll(n, init);
      ArriveKeeps(n, before.0, before.1, last);
      assert arrivals == init + [last];
      assert Arrived(arrivals) == Arrived(init) + {last};
      ArriveStores(n, before.0, last);
    }
  }

  lemma NothingEmitted(n: nat)
    requires 0 < n
    ensures Emitted(n, Start(), [])
  {
  }

  lemma ArriveStores(n: nat, s: Progress, index: nat)
    ensures var r := Arrive(n, s, index).0;
      && (if s.decoded then r == s else r.stored == s.stored + {index})
      && (s.decoded ==> r.decoded)
  {
  }

  /** For every order of arrival with duplicates: no original is emitted twice, nothing but originals
   * is emitted, an original that has arrived is emitted, and all are emitted as soon as n different
   * blocks have arrived. */
  lemma GroupDelivery(n: nat, arrivals: seq<nat>)
    requires 0 < n
    ensures var out := ArriveAll(n, arrivals).1;
      && NoTwice(out)
      && (forall i :: i in out ==> i < n)
      && (forall i :: i < n && i in arrivals ==> i in out)
      && (|Arrived(arrivals)| >= n ==> forall i: nat :: i < n ==> i in out)
      && (|Arrived(arrivals)| < n ==> forall i :: i in out ==> i in arrivals)
  {
    ArriveAllEmits(n, arrivals);
    var r := ArriveAll(n, arrivals);
    if r.0.decoded {
      SubsetSize(r.0.stored, Arrived(arrivals));
    }
  }

  /** Whatever is lost of the n payloads and the recovery blocks of a group, if it is no more packets than
   * there are recovery blocks, every payload is emitted. */
  lemma LossSurvived(mode: FecMode, n: nat, arrivals: seq<nat>, lost: set<nat>)
    requires 0 < n && |lost| <= Recovery(mode, n)
    requires forall i: nat :: i < n + Recovery(mode, n) ==> i in arrivals || i in lost
    ensures forall i: nat :: i < n ==> i in ArriveAll(n, arrivals).1
  {
    hide ArriveAll;
    var all := UpTo(n + Recovery(mode, n));
    var there := all - lost;
    assert all <= there + lost;
    SubsetSize(all, there + lost);
    assert |there + lost| <= |there| + |lost| by {
      assert there + lost == there + (lost - there);
      SubsetSize(lost - there, lost);
    }
    SubsetSize(there, Arrived(arrivals));
    GroupDelivery(n, arrivals);
  }

  // ---------------------------------------------------------------- the emitted payloads

  ghost function PayloadsOf(data: seq<seq<Byte>>, xs: seq<nat>): (out: seq<seq<Byte>>)
    requires forall k :: 0 <= k < |xs| ==> xs[k] < |data|
  {
    if xs == [] then [] else PayloadsOf(data, xs[..|xs| - 1]) + PayloadOf(data[xs[|xs| - 1]])
  }

  lemma {:induction false} PayloadsAppend(data: seq<seq<Byte>>, a: seq<nat>, b: seq<nat>)
    requires forall k :: 0 <= k < |a| ==> a[k] < |data|
    requires forall k :: 0 <= k < |b| ==> b[k] < |data|
    ensures PayloadsOf(data, a + b) == PayloadsOf(data, a) + PayloadsOf(data, b)
  {
    hide PayloadOf;
    if b == [] {
      assert a + b == a;
    } else {
      var init := b[..|b| - 1];
      PayloadsAppend(data, a, init);
      assert (a + b)[..|a + b| - 1] == a + init;
    }
  }

  lemma PayloadsOne(data: seq<seq<Byte>>, i: nat)
    requires i < |data|
    ensures PayloadsOf(data, [i]) == PayloadOf(data[i])
  {
    hide PayloadOf;
    assert PayloadsOf(data, [i][..0]) == [];
  }

  lemma ArriveInside(n: nat, s: Progress, index: nat)
    ensures forall k :: 0 <= k < |Arrive(n, s, index).1| ==> Arrive(n, s, index).1[k] < n
  {
  }
}
