/**
 * The fragment stream behind a sequence of messages, and what ikcp_recv makes of the part of it
 * that has reached the receive queue.
 */
module KcpStream {
  import opened Bytes
  import opened KcpWire
  import opened Kcp

  function Stream(mss: nat, msgs: seq<seq<Byte>>): (r: seq<Segment>)
    requires 0 < mss
  {
    if msgs == [] then []
    else Stream(mss, msgs[..|msgs| - 1]) + Fragments(mss, msgs[|msgs| - 1])
  }

  lemma StreamAppend(mss: nat, msgs: seq<seq<Byte>>, m: seq<Byte>)
    requires 0 < mss
    ensures Stream(mss, msgs + [m]) == Stream(mss, msgs) + Fragments(mss, m)
  {
    hide Fragments;
    assert (msgs + [m])[..|msgs|] == msgs;
  }

  /** A longer list of messages has a longer stream. */
  lemma {:induction false} StreamPrefix(mss: nat, msgs: seq<seq<Byte>>, k: nat)
    requires 0 < mss && k <= |msgs|
    ensures Stream(mss, msgs[..k]) <= Stream(mss, msgs)
    ensures k < |msgs| ==> |Stream(mss, msgs[..k])| < |Stream(mss, msgs)|
    ensures k < |msgs| ==> Stream(mss, msgs[..k]) + Fragments(mss, msgs[k]) <= Stream(mss, msgs)
  {
    hide Fragments;
    if k < |msgs| {
      var last := |msgs| - 1;
      StreamPrefix(mss, msgs[..last], k);
      assert msgs[..last][..k] == msgs[..k];
    } else {
      assert msgs[..k] == msgs;
    }
  }

  /** Messages that ikcp_send accepts: fewer than 128 fragments each. */
  ghost predicate Accepted(mss: nat, msgs: seq<seq<Byte>>)
    requires 0 < mss
  {
    forall i :: 0 <= i < |msgs| ==> |Fragments(mss, msgs[i])| < WND_RCV
  }

  ghost predicate Fragmented(mss: nat, st: seq<Segment>)
  {
    forall i :: 0 <= i < |st| ==> st[i].frg < WND_RCV - 1 && |st[i].data| <= mss
  }

  lemma {:induction false} StreamFragmented(mss: nat, msgs: seq<seq<Byte>>)
    requires 0 < mss && Accepted(mss, msgs)
    ensures Fragmented(mss, Stream(mss, msgs))
  {
    hide Fragments;
    if msgs != [] {
      var last := |msgs| - 1;
      StreamFragmented(mss, msgs[..last]);
      FragmentsMerge(mss, msgs[last]);
    }
  }

  // ---------------------------------------------------------------- the head message

  /** The head of the queue is a prefix of a message's fragments, or has all of them and more. */
  ghost predicate Heads(q: seq<Segment>, f: seq<Segment>)
  {
    q <= f || f <= q
  }

  ghost predicate CountsDown(f: seq<Segment>)
  {
    f != [] && forall i :: 0 <= i < |f| ==> f[i].frg == |f| - 1 - i
  }

  lemma {:induction false} SpanWhole(q: seq<Segment>, f: seq<Segment>)
    requires CountsDown(f) && f <= q
    ensures Span(q) == |f|
  {
    if |f| > 1 {
      assert CountsDown(f[1..]) by {
        forall i | 0 <= i < |f| - 1
          ensures f[1..][i].frg == |f| - 2 - i
        {
          assert f[1..][i] == f[i + 1];
        }
      }
      assert f[1..] <= q[1..];
      SpanWhole(q[1..], f[1..]);
      assert q[0] == f[0];
    } else {
      assert q[0] == f[0];
    }
  }

  lemma MergeOne(s: Segment)
    ensures Merge([s]) == s.data
  {
    assert Merge([s]) == s.data + Merge([]);
  }

  /** A complete head message is seen and merged; an incomplete one is not seen. */
  lemma PeekHead(mss: nat, q: seq<Segment>, m: seq<Byte>)
    requires 0 < mss && q != [] && Heads(q, Fragments(mss, m))
    ensures var n := |Fragments(mss, m)|;
      if |q| >= n then PeekSize(q) == |m| && Span(q) == n && q[..n] == Fragments(mss, m) && Merge(q[..Span(q)]) == m
      else PeekSize(q) == -1
  {
    hide Fragments, Merge, Span;
    var f := Fragments(mss, m);
    FragmentsMerge(mss, m);
    assert q[0] == f[0];
    if |q| >= |f| {
      SpanWhole(q, f);
      assert q[..|f|] == f;
      MergeOne(q[0]);
      assert |f| == 1 ==> f == [q[0]];
    }
  }

  /** ikcp_recv on a queue whose head belongs to message m: every result code and the bytes. */
  lemma RecvHead(mss: nat, c: Config, p: Peer, len: int, m: seq<Byte>)
    requires 0 < mss && p.rcvQueue != [] && Heads(p.rcvQueue, Fragments(mss, m))
    ensures var r := Recv(c, p, len);
      var size := if len < 0 then -len else len;
      if |p.rcvQueue| < |Fragments(mss, m)| then r == Received(p, -2, [])
      else if |m| > size then r == Received(p, -3, [])
      else r.result == |m| && r.data == m && Span(p.rcvQueue) == |Fragments(mss, m)|
  {
    hide PeekSize, Fragments, Span, Merge, MoveReady;
    PeekHead(mss, p.rcvQueue, m);
  }
}
