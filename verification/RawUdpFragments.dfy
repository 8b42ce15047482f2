/**
 * Fragmentation of raw UDP packets as values: the header, the pieces of a packet, their
 * concatenation, and the sum of what a reassembly table stores.
 */
module RawUdpFragments {
  import opened Bytes
  import opened Collections

  type U16 = x: int | 0 <= x < 0x1_0000

  const HEADER: nat := 6

  // ---------------------------------------------------------------- the header

  function Encode16(x: U16): (s: seq<Byte>)
    ensures |s| == 2
  {
    [x / 256, x % 256]
  }

  function Decode16(hi: Byte, lo: Byte): (x: U16)
  {
    var h: int, l: int := hi, lo;
    256 * h + l
  }

  datatype Fragment = Fragment(msgId: U16, index: Byte, total: Byte, totalLen: U16, data: seq<Byte>)

  /** FragHeader and payload, as sendFragment lays them out. */
  function Encode(f: Fragment): (s: seq<Byte>)
    ensures |s| == HEADER + |f.data|
  {
    Encode16(f.msgId) + [f.index, f.total] + Encode16(f.totalLen) + f.data
  }

  function Decode(s: seq<Byte>): (f: Fragment)
    requires |s| >= HEADER
  {
    Fragment(Decode16(s[0], s[1]), s[2], s[3], Decode16(s[4], s[5]), s[HEADER..])
  }

  /** The header, byte by byte; its numbers have the highest byte first. */
  lemma HeaderLayout(f: Fragment)
    ensures Encode(f) == [f.msgId / 256, f.msgId % 256, f.index, f.total, f.totalLen / 256, f.totalLen % 256] + f.data
  {
    assert Encode16(f.msgId) + [f.index, f.total] + Encode16(f.totalLen)
        == [f.msgId / 256, f.msgId % 256, f.index, f.total, f.totalLen / 256, f.totalLen % 256];
  }

  lemma DecodeEncode(f: Fragment)
    ensures Decode(Encode(f)) == f
  {
    var s := Encode(f);
    assert s[0] == f.msgId / 256 && s[1] == f.msgId % 256 && s[4] == f.totalLen / 256 && s[5] == f.totalLen % 256;
    assert s[HEADER..] == f.data;
  }

  // ---------------------------------------------------------------- the pieces of a packet

  /** The number of fragments of a packet of n bytes. */
  function Count(n: nat, size: nat): (k: nat)
    requires size > 0
  {
    (n + size - 1) / size
  }

  /** The pieces of a packet, by taking full ones off the front. */
  function Pieces(p: seq<Byte>, size: nat): (r: seq<seq<Byte>>)
    requires size > 0
  {
    if |p| == 0 then [] else if |p| <= size then [p] else [p[..size]] + Pieces(p[size..], size)
  }

  function Join(ps: seq<seq<Byte>>): (r: seq<Byte>)
  {
    if ps == [] then [] else ps[0] + Join(ps[1..])
  }

  lemma {:induction false} PiecesJoin(p: seq<Byte>, size: nat)
    requires size > 0
    ensures Join(Pieces(p, size)) == p
  {
    if |p| > size {
      PiecesJoin(p[size..], size);
      assert Pieces(p, size)[1..] == Pieces(p[size..], size);
    } else if |p| > 0 {
      assert Join([p]) == p + Join([]);
    }
  }

  /** What processFrag expects of the length of a fragment. */
  function Expected(totalLen: nat, size: nat, total: nat, index: nat): (n: int)
  {
    if index + 1 == total then totalLen - size * (total - 1) else size
  }

  ghost predicate Shaped(ps: seq<seq<Byte>>, n: nat, size: nat, count: nat)
  {
    |ps| == count && forall i :: 0 <= i < count ==> |ps[i]| == Expected(n, size, count, i) && 0 < |ps[i]|
  }

  lemma ShapedNext(ps: seq<seq<Byte>>, n: nat, size: nat, count: nat, first: seq<Byte>)
    requires Shaped(ps, n, size, count) && 0 < count && |first| == size && size > 0
    ensures Shaped([first] + ps, n + size, size, count + 1)
  {
    hide Expected;
    var all := [first] + ps;
    forall i | 0 <= i < count + 1
      ensures |all[i]| == Expected(n + size, size, count + 1, i) && 0 < |all[i]|
    {
      ExpectedNext(n, size, count, i);
      if i > 0 {
        assert all[i] == ps[i - 1];
      }
    }
  }

  lemma ExpectedNext(n: nat, size: nat, count: nat, i: nat)
    requires 0 < count && i <= count
    ensures Expected(n + size, size, count + 1, i) == if i == 0 then size else Expected(n, size, count, i - 1)
  {
    assert size * count == size * (count - 1) + size;
  }

  lemma {:induction false} PiecesShape(p: seq<Byte>, size: nat)
    requires size > 0
    ensures |Pieces(p, size)| == Count(|p|, size)
    ensures forall i :: 0 <= i < |Pieces(p, size)| ==>
      |Pieces(p, size)[i]| == Expected(|p|, size, Count(|p|, size), i) && 0 < |Pieces(p, size)[i]|
  {
    hide Count, Expected;
    if |p| > size {
      PiecesShape(p[size..], size);
      CountBounds(|p| - size, size);
      CountNext(|p| - size, size);
      ShapedNext(Pieces(p[size..], size), |p| - size, size, Count(|p| - size, size), p[..size]);
    } else if |p| > 0 {
      CountOne(|p|, size);
      OnePiece(|p|, size);
    } else {
      CountNone(size);
    }
  }

  lemma OnePiece(n: nat, size: nat)
    ensures Expected(n, size, 1, 0) == n
  {
    assert size * 0 == 0;
  }

  lemma CountNone(size: nat)
    requires size > 0
    ensures Count(0, size) == 0
  {
    Quotient(size - 1, size, 0, size - 1);
  }

  lemma CountOne(n: nat, size: nat)
    requires 0 < n <= size
    ensures Count(n, size) == 1
  {
    Quotient(n + size - 1, size, 1, n - 1);
  }

  lemma CountNext(n: nat, size: nat)
    requires size > 0
    ensures Count(n + size, size) == Count(n, size) + 1
  {
    var m := n + size - 1;
    Quotient(m + size, size, m / size + 1, m % size);
  }

  lemma Quotient(m: nat, d: nat, q: nat, r: nat)
    requires r < d && m == q * d + r
    ensures m / d == q
  {
    var q', r' := m / d, m % d;
    assert (q' - q) * d == r - r';
    if q' > q {
      AtLeast(q' - q, d);
    } else if q' < q {
      AtLeast(q - q', d);
    }
  }

  lemma AtLeast(a: nat, d: nat)
    requires 1 <= a
    ensures a * d >= d
  {
    assert a * d == d + (a - 1) * d;
  }

  /** Where piece i ends. */
  function End(n: nat, size: nat, i: nat): (e: int)
  {
    i * size + (if size < n - i * size then size else n - i * size)
  }

  /** Where piece i lies in the packet, as send computes it. */
  lemma {:induction false} PieceAt(p: seq<Byte>, size: nat, i: nat)
    requires size > 0 && i < |Pieces(p, size)|
    ensures i * size <= End(|p|, size, i) <= |p|
    ensures Pieces(p, size)[i] == p[i * size..End(|p|, size, i)]
  {
    if i == 0 {
      assert p[..|p|] == p;
    } else {
      var rest := p[size..];
      PieceAt(rest, size, i - 1);
      assert i * size == (i - 1) * size + size;
      SliceOfRest(p, size, (i - 1) * size, End(|rest|, size, i - 1));
    }
  }

  lemma SliceOfRest(p: seq<Byte>, size: nat, a: nat, b: nat)
    requires size <= |p| && a <= b <= |p| - size
    ensures p[size..][a..b] == p[size + a..size + b]
  {
  }

  lemma JoinSize(ps: seq<seq<Byte>>, totalLen: nat, size: nat)
    requires size > 0 && totalLen > 0 && |ps| == Count(totalLen, size)
    requires forall i :: 0 <= i < |ps| ==> |ps[i]| == Expected(totalLen, size, |ps|, i)
    ensures |Join(ps)| == totalLen
  {
    CountBounds(totalLen, size);
    JoinFull(ps, size, totalLen);
  }

  lemma CountBounds(n: nat, size: nat)
    requires size > 0 && n > 0
    ensures Count(n, size) > 0
  {
    if n > size {
      CountNext(n - size, size);
    } else {
      CountOne(n, size);
    }
  }

  lemma {:induction false} JoinFull(ps: seq<seq<Byte>>, size: nat, totalLen: nat)
    requires ps != [] && forall i :: 0 <= i < |ps| ==> |ps[i]| == Expected(totalLen, size, |ps|, i)
    ensures |Join(ps)| == totalLen
  {
    if |ps| == 1 {
      assert Join(ps) == ps[0] + Join([]);
      assert size * 0 == 0;
    } else {
      var rest := ps[1..];
      assert |ps[0]| == size;
      assert size * (|ps| - 1) == size * (|rest| - 1) + size;
      assert |ps[|ps| - 1]| == totalLen - size * (|ps| - 1);
      forall i | 0 <= i < |rest|
        ensures |rest[i]| == Expected(totalLen - size, size, |rest|, i)
      {
        assert rest[i] == ps[i + 1];
      }
      LastNonNegative(ps, size, totalLen);
      JoinFull(rest, size, totalLen - size);
    }
  }

  lemma LastNonNegative(ps: seq<seq<Byte>>, size: nat, totalLen: nat)
    requires |ps| >= 2 && |ps[|ps| - 1]| == totalLen - size * (|ps| - 1)
    ensures totalLen >= size
  {
    AtLeastSize(|ps| - 1, size);
  }

  lemma AtLeastSize(a: nat, size: nat)
    requires a >= 1
    ensures size * a >= size
  {
    assert size * a == size + size * (a - 1);
  }

  // ---------------------------------------------------------------- arrivals

  /** Fragment index of message id arrives. */
  datatype Event = Event(id: U16, index: nat)

  type Packets = map<U16, seq<Byte>>

  ghost function Received(events: seq<Event>, id: U16): (s: set<nat>)
  {
    if events == [] then {}
    else
      var last := events[|events| - 1];
      Received(events[..|events| - 1], id) + (if last.id == id then {last.index} else {})
  }

  ghost function CountOf(packets: Packets, size: nat, id: U16): nat
    requires size > 0 && id in packets
  {
    Count(|packets[id]|, size)
  }

  /** The event is a fragment of one of the packets, which is not complete yet. */
  ghost predicate Pending(events: seq<Event>, e: Event, packets: Packets, size: nat)
    requires size > 0
  {
    e.id in packets && e.index < CountOf(packets, size, e.id) && |Received(events, e.id)| < CountOf(packets, size, e.id)
  }

  /** Any interleaving of the fragments of the packets, with duplicates before completion. */
  ghost predicate Interleaving(events: seq<Event>, packets: Packets, size: nat)
    requires size > 0
  {
    events == [] ||
    var init := events[..|events| - 1];
    Interleaving(init, packets, size) && Pending(init, events[|events| - 1], packets, size)
  }

  /** The messages in the order in which they become complete. */
  ghost function Completed(events: seq<Event>, packets: Packets, size: nat): (ids: seq<U16>)
    requires size > 0 && Interleaving(events, packets, size)
  {
    if events == [] then []
    else
      var id := events[|events| - 1].id;
      Completed(events[..|events| - 1], packets, size)
        + (if |Received(events, id)| == CountOf(packets, size, id) then [id] else [])
  }

  /** A message is in the list once all its fragments have arrived, and then exactly once. */
  lemma {:induction false} CompletedOnce(events: seq<Event>, packets: Packets, size: nat, id: U16)
    requires size > 0 && Interleaving(events, packets, size) && id in packets && CountOf(packets, size, id) > 0
    ensures |Received(events, id)| <= CountOf(packets, size, id)
    ensures multiset(Completed(events, packets, size))[id] == if |Received(events, id)| == CountOf(packets, size, id) then 1 else 0
  {
    hide CountOf;
    if events != [] {
      CompletedOnce(events[..|events| - 1], packets, size, id);
    }
  }

  // ---------------------------------------------------------------- stored fragments

  type Fragments = map<Byte, seq<Byte>>

  /** The loop of processFrag over the fragment indices. */
  function Assembled(frags: Fragments, n: nat): (p: seq<Byte>)
    requires n <= 256
  {
    if n == 0 then [] else Assembled(frags, n - 1) + (if (n - 1) in frags then frags[n - 1] else [])
  }

  lemma JoinNext(ps: seq<seq<Byte>>, q: seq<Byte>)
    ensures Join(ps + [q]) == Join(ps) + q
  {
    if ps == [] {
      assert [q][1..] == [] && q + [] == q;
    } else {
      JoinNext(ps[1..], q);
      assert (ps + [q])[1..] == ps[1..] + [q];
      assert ps[0] + (Join(ps[1..]) + q) == (ps[0] + Join(ps[1..])) + q;
    }
  }

  lemma {:induction false} AssembledJoin(frags: Fragments, ps: seq<seq<Byte>>, n: nat)
    requires n <= |ps| <= 256 && forall i: nat :: i < n ==> i in frags && frags[i] == ps[i]
    ensures Assembled(frags, n) == Join(ps[..n])
  {
    if n > 0 {
      AssembledJoin(frags, ps, n - 1);
      JoinNext(ps[..n - 1], ps[n - 1]);
      assert ps[..n] == ps[..n - 1] + [ps[n - 1]];
    }
  }

  /** Fragments that hold all the pieces of a packet assemble to the packet. */
  lemma AssembledPacket(frags: Fragments, p: seq<Byte>, size: nat)
    requires size > 0 && |Pieces(p, size)| <= 256
    requires forall i: nat :: i < |Pieces(p, size)| ==> i in frags && frags[i] == Pieces(p, size)[i]
    ensures Assembled(frags, |Pieces(p, size)|) == p
  {
    var ps := Pieces(p, size);
    AssembledJoin(frags, ps, |ps|);
    assert ps[..|ps|] == ps;
    PiecesJoin(p, size);
  }

  /** n keys below n are all of them. */
  lemma {:induction false} AllThere(s: set<Byte>, n: nat)
    requires |s| >= n && forall k :: k in s ==> k < n
    ensures forall i: nat :: i < n ==> 0 <= i < 256 && i in s
    ensures |s| == n
  {
    if n == 0 {
      if k :| k in s {
      }
    } else {
      if n <= 256 && (n - 1) in s {
        AllThere(s - {n - 1}, n - 1);
      } else {
        AllThere(s, n - 1);
      }
    }
  }

  // ---------------------------------------------------------------- sums

  function Length(d: seq<Byte>): nat
  {
    |d|
  }

  ghost function StoredBytes(frags: Fragments): (n: nat)
  {
    Sum(frags, Length)
  }

  lemma StoredWith(frags: Fragments, k: Byte, d: seq<Byte>)
    requires k !in frags
    ensures StoredBytes(frags[k := d]) == StoredBytes(frags) + |d|
    ensures frags[k := d].Keys == frags.Keys + {k} && |frags[k := d]| == |frags| + 1
  {
    SumWith(frags, Length, k, d);
    Larger(frags, k, d);
  }

  /** removeReassemblyEntry's sum over the stored fragments. */
  method SumOf(frags: Fragments) returns (bytes: nat)
    ensures bytes == StoredBytes(frags)
  {
    bytes := 0;
    var left := frags;
    while left != map[]
      invariant bytes + StoredBytes(left) == StoredBytes(frags)
      decreases |left|
    {
      var k :| k in left;
      SumWithout(left, Length, k);
      Smaller(left, k);
      bytes := bytes + |left[k]|;
      left := left - {k};
    }
  }
}
