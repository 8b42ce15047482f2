/**
 * The server's send buffers: a control and a data buffer per client under one global budget.
 * What has been handed to the socket and what is still buffered are together the accepted frames,
 * whole and in order.
 */
module SendBuffers {
  import opened Bytes
  import opened Collections

  /** MAX_TCP_SEND_BUF and MAX_TCP_MSG_PAYLOAD. */
  const MAX_BUFFER: nat := 2 * 1024 * 1024
  const MAX_PAYLOAD: nat := 65000

  /** The bytes a socket has taken, and those that wait for it. */
  datatype Channel = Channel(taken: seq<Byte>, waiting: seq<Byte>)

  datatype Client = Client(control: Channel, data: Channel, failures: nat, alive: bool)

  /** What a call of send returns: a number of bytes, EAGAIN, or another error. */
  datatype SendResult = Took(count: nat) | WouldBlock | Failed

  type Clients = map<nat, Client>

  /** Everything that was ever accepted on a channel. */
  function Stream(c: Channel): (s: seq<Byte>)
  {
    c.taken + c.waiting
  }

  function Side(c: Client, dataChannel: bool): Channel
  {
    if dataChannel then c.data else c.control
  }

  function WithSide(c: Client, dataChannel: bool, ch: Channel): Client
  {
    if dataChannel then c.(data := ch) else c.(control := ch)
  }

  // ---------------------------------------------------------------- sums

  function Waiting(c: Client): nat
  {
    |c.control.waiting| + |c.data.waiting|
  }

  ghost function Total(m: Clients): (n: nat)
  {
    Sum(m, Waiting)
  }

  lemma TotalWithout(m: Clients, k: nat)
    requires k in m
    ensures Total(m) == Waiting(m[k]) + Total(m - {k})
  {
    SumWithout(m, Waiting, k);
  }

  lemma TotalWith(m: Clients, k: nat, c: Client)
    requires k in m
    ensures Total(m[k := c]) == Total(m) - Waiting(m[k]) + Waiting(c)
    ensures Total(m) >= Waiting(m[k])
  {
    SumWith(m, Waiting, k, c);
  }

  function Min(a: nat, b: nat): nat
  {
    if a < b then a else b
  }

  // ---------------------------------------------------------------- the server

  class SendSide {
    /** maxSendBufferBytes */
    const limit: nat
    var clients: Clients
    var globalBytes: nat

    ghost predicate Valid()
      reads this
    {
      && globalBytes == Total(clients) <= limit
      && forall f :: f in clients ==> |clients[f].control.waiting| <= MAX_BUFFER && |clients[f].data.waiting| <= MAX_BUFFER
    }

    constructor (limit: nat)
      ensures Valid() && this.limit == limit && clients == map[]
    {
      this.limit, clients, globalBytes := limit, map[], 0;
      new;
      assert Total(map[]) == 0;
    }

    method Accept(f: nat)
      requires Valid() && f !in clients
      modifies this`clients
      ensures Valid() && clients == old(clients)[f := Client(Channel([], []), Channel([], []), 0, true)]
    {
      var c := Client(Channel([], []), Channel([], []), 0, true);
      SumWithout(clients[f := c], Waiting, f);
      assert clients[f := c] - {f} == clients;
      clients := clients[f := c];
    }

    /** appendSendBuffer: all of a frame is accepted, exactly when it fits both budgets, or nothing. */
    method Append(f: nat, dataChannel: bool, first: seq<Byte>, second: seq<Byte>) returns (ok: bool)
      requires Valid() && f in clients
      modifies this
      ensures Valid() && clients.Keys == old(clients.Keys)
      ensures ok <==>
        && |Side(old(clients)[f], dataChannel).waiting| + |first| + |second| <= 2097152
        && old(globalBytes) + |first| + |second| <= limit
      ensures Side(clients[f], dataChannel) ==
        var ch := Side(old(clients)[f], dataChannel);
        if ok then Channel(ch.taken, ch.waiting + first + second) else ch
      ensures Side(clients[f], !dataChannel) == Side(old(clients)[f], !dataChannel) && clients[f].alive == old(clients)[f].alive
      ensures clients[f].failures == var n := old(clients)[f].failures;
        if dataChannel then n else if ok then 0 else if n < 255 then n + 1 else n
      ensures forall g :: g in clients && g != f ==> clients[g] == old(clients)[g]
    {
      hide Total;
      var c := clients[f];
      var target := Side(c, dataChannel);
      var added := |first| + |second|;
      if |target.waiting| > MAX_BUFFER - Min(added, MAX_BUFFER) || added > MAX_BUFFER
         || globalBytes > limit - Min(added, limit) || added > limit {
        if !dataChannel && c.failures < 255 {
          TotalWith(clients, f, c.(failures := c.failures + 1));
          clients := clients[f := c.(failures := c.failures + 1)];
        }
        return false;
      }
      c := WithSide(c, dataChannel, Channel(target.taken, target.waiting + first + second));
      if !dataChannel {
        c := c.(failures := 0);
      }
      TotalWith(clients, f, c);
      clients := clients[f := c];
      globalBytes := globalBytes + added;
      ok := true;
    }

    /** consumeSendBuffer for the bytes that a send has taken. */
    method Consume(f: nat, dataChannel: bool, count: nat)
      requires Valid() && f in clients && count <= |Side(clients[f], dataChannel).waiting|
      modifies this
      ensures Valid()
      ensures clients == old(clients)[f := WithSide(old(clients)[f], dataChannel, Sent(Side(old(clients)[f], dataChannel), count))]
      ensures Stream(Side(clients[f], dataChannel)) == old(Stream(Side(clients[f], dataChannel)))
      ensures globalBytes == old(globalBytes) - count
    {
      hide Total;
      var c := clients[f];
      var target := Side(c, dataChannel);
      assert target.taken + target.waiting[..count] + target.waiting[count..] == target.taken + target.waiting;
      var sent := WithSide(c, dataChannel, Sent(target, count));
      TotalWith(clients, f, sent);
      clients := clients[f := sent];
      globalBytes := Saturating(globalBytes, count);
    }

    /** clearSendBuffer */
    method Clear(f: nat, dataChannel: bool)
      requires Valid() && f in clients
      modifies this
      ensures Valid()
      ensures clients == old(clients)[f := WithSide(old(clients)[f], dataChannel, Channel(Side(old(clients)[f], dataChannel).taken, []))]
      ensures globalBytes == old(globalBytes) - |Side(old(clients)[f], dataChannel).waiting|
    {
      hide Total;
      var c := clients[f];
      var target := Side(c, dataChannel);
      var cleared := WithSide(c, dataChannel, Channel(target.taken, []));
      TotalWith(clients, f, cleared);
      clients := clients[f := cleared];
      globalBytes := Saturating(globalBytes, |target.waiting|);
    }

    /** flushSendBuf against a socket that answers as given; taking no byte is a failure. The stream of
     * the channel does not change, whatever the socket does. The first k answers are the ones that took
     * bytes. */
    method Flush(f: nat, socket: seq<SendResult>) returns (ghost k: nat)
      requires Valid() && f in clients
      modifies this
      ensures Valid() && clients.Keys == old(clients.Keys)
      ensures Drained(old(clients)[f], clients[f], socket, k)
      ensures Stream(clients[f].control) == old(Stream(clients[f].control))
      ensures globalBytes == old(globalBytes) - Min(Taken(socket, k), |old(clients)[f].control.waiting|)
      ensures forall g :: g in clients && g != f ==> clients[g] == old(clients)[g]
    {
      hide Total, Stream, Draining, Drained;
      k := 0;
      ghost var start := clients[f];
      NothingTaken(start, socket);
      for i := 0 to |socket|
        invariant Valid() && clients.Keys == old(clients.Keys) && k == i && Draining(start, clients[f], socket, k)
        invariant globalBytes == old(globalBytes) - (|start.control.waiting| - |clients[f].control.waiting|)
        invariant forall g :: g in clients && g != f ==> clients[g] == old(clients)[g]
      {
        TakenSoFar(start, clients[f], socket, k);
        if clients[f].control.waiting == [] {
          return;
        }
        if socket[i].Took? && socket[i].count > 0 {
          TakesMore(start, clients[f], socket, k);
          Consume(f, false, Min(socket[i].count, |clients[f].control.waiting|));
          k := k + 1;
        } else {
          StopsAt(start, clients[f], socket, k);
          if !socket[i].WouldBlock? {
            TotalWith(clients, f, clients[f].(alive := false));
            clients := clients[f := clients[f].(alive := false)];
          }
          return;
        }
      }
      TakenSoFar(start, clients[f], socket, k);
    }

    /** sendMsg: the frame joins the stream whole or not at all, and the third refusal in a row gives
     * the client up. */
    method SendMsg(f: nat, header: seq<Byte>, body: seq<Byte>, socket: seq<SendResult>) returns (sent: bool, ghost k: nat)
      requires Valid() && f in clients
      modifies this
      ensures Valid() && clients.Keys == old(clients.Keys)
      ensures Stream(clients[f].control) == old(Stream(clients[f].control))
        + (if FrameFits(old(clients)[f], old(globalBytes), limit, header, body) then header + body else [])
      ensures sent <==> FrameFits(old(clients)[f], old(globalBytes), limit, header, body) && clients[f].alive
      ensures FrameFits(old(clients)[f], old(globalBytes), limit, header, body) <==>
        var c := old(clients)[f];
        && c.alive && |body| <= 65000
        && |c.control.waiting| + |header| + |body| <= 2097152 && old(globalBytes) + |header| + |body| <= limit
      ensures FrameFits(old(clients)[f], old(globalBytes), limit, header, body) ==>
        Drained(Queued(old(clients)[f], header + body), clients[f], socket, k)
      ensures !old(clients)[f].alive || |body| > 65000 ==> clients == old(clients)
      ensures old(clients)[f].alive && |body| <= 65000 && !FrameFits(old(clients)[f], old(globalBytes), limit, header, body) ==>
        var n := old(clients)[f].failures;
        clients[f] == old(clients)[f].(failures := if n < 255 then n + 1 else n, alive := n < 2)
      ensures forall g :: g in clients && g != f ==> clients[g] == old(clients)[g]
    {
      hide Total, Drained;
      k := 0;
      assert old(Stream(clients[f].control)) + [] == old(Stream(clients[f].control));
      if !clients[f].alive {
        return false, k;
      }
      if |body| > MAX_PAYLOAD {
        return false, k;
      }
      var ok := Append(f, false, header, body);
      if !ok {
        if clients[f].failures >= 3 {
          TotalWith(clients, f, clients[f].(alive := false));
          clients := clients[f := clients[f].(alive := false)];
        }
        return false, k;
      }
      Appended(old(clients)[f].control, header, body);
      Associates(old(clients)[f].control.waiting, header, body);
      k := Flush(f, socket);
      sent := clients[f].alive;
    }

    /** The buffers of destroyClient: both are given back before the client goes. */
    method Destroy(f: nat)
      requires Valid() && f in clients
      modifies this
      ensures Valid() && clients == old(clients) - {f} && globalBytes == old(globalBytes) - Waiting(old(clients)[f])
    {
      hide Total;
      Clear(f, false);
      Clear(f, true);
      TotalWithout(clients, f);
      clients := clients - {f};
      assert clients == old(clients) - {f};
    }
  }

  // ---------------------------------------------------------------- what a socket takes

  /** The first k answers are positive counts. */
  ghost predicate Counts(socket: seq<SendResult>, k: nat)
  {
    k <= |socket| && forall i :: 0 <= i < k ==> socket[i].Took? && socket[i].count > 0
  }

  /** The sum of the first k answers. */
  ghost function Taken(socket: seq<SendResult>, k: nat): (n: nat)
    requires Counts(socket, k)
  {
    if k == 0 then 0 else Taken(socket, k - 1) + socket[k - 1].count
  }

  /** The socket has taken the first n bytes that waited, or all if there are fewer. */
  ghost predicate TakenUpTo(start: Channel, ch: Channel, n: nat)
  {
    var m := Min(n, |start.waiting|);
    ch == Channel(start.taken + start.waiting[..m], start.waiting[m..])
  }

  /** After k answers that took bytes. */
  ghost predicate Draining(before: Client, c: Client, socket: seq<SendResult>, k: nat)
  {
    && Counts(socket, k) && (k > 0 ==> Taken(socket, k - 1) < |before.control.waiting|)
    && TakenUpTo(before.control, c.control, Taken(socket, k)) && c == before.(control := c.control)
  }

  lemma NothingTaken(c: Client, socket: seq<SendResult>)
    ensures Draining(c, c, socket, 0)
  {
    assert c.control.taken + [] == c.control.taken;
  }

  /** Nothing is lost from the stream; if nothing waits or the answers end, that is all. */
  lemma TakenSoFar(before: Client, c: Client, socket: seq<SendResult>, k: nat)
    requires Draining(before, c, socket, k)
    ensures Stream(c.control) == Stream(before.control)
    ensures |before.control.waiting| - |c.control.waiting| == Min(Taken(socket, k), |before.control.waiting|)
    ensures c.control.waiting == [] || k == |socket| ==> Drained(before, c, socket, k)
  {
    var m := Min(Taken(socket, k), |before.control.waiting|);
    assert before.control.waiting[..m] + before.control.waiting[m..] == before.control.waiting;
    Associates(before.control.taken, before.control.waiting[..m], before.control.waiting[m..]);
  }

  lemma StopsAt(before: Client, c: Client, socket: seq<SendResult>, k: nat)
    requires Draining(before, c, socket, k) && k < |socket| && !(socket[k].Took? && socket[k].count > 0) && c.control.waiting != []
    ensures socket[k].WouldBlock? ==> Drained(before, c, socket, k)
    ensures !socket[k].WouldBlock? ==> Drained(before, c.(alive := false), socket, k)
  {
  }

  lemma TakesMore(before: Client, c: Client, socket: seq<SendResult>, k: nat)
    requires Draining(before, c, socket, k) && c.control.waiting != []
    requires k < |socket| && socket[k].Took? && socket[k].count > 0
    ensures Draining(before, c.(control := Sent(c.control, Min(socket[k].count, |c.control.waiting|))), socket, k + 1)
  {
    hide TakenUpTo, Sent;
    TakesBytes(before.control, c.control, Taken(socket, k), socket[k].count);
    WaitsStill(before.control, c.control, Taken(socket, k));
  }

  lemma WaitsStill(start: Channel, ch: Channel, n: nat)
    requires TakenUpTo(start, ch, n) && ch.waiting != []
    ensures n < |start.waiting|
  {
  }

  lemma TakesBytes(start: Channel, ch: Channel, n: nat, count: nat)
    requires TakenUpTo(start, ch, n) && ch.waiting != []
    ensures TakenUpTo(start, Sent(ch, Min(count, |ch.waiting|)), n + count)
  {
    var w, m := start.waiting, Min(count, |ch.waiting|);
    assert w[..n] + w[n..][..m] == w[..n + m];
    assert w[n..][m..] == w[n + m..];
    Associates(start.taken, w[..n], w[n..][..m]);
  }

  /** What the answers of a socket do to a client. The first k answers took bytes, each of them while some
   * waited, and what they took is gone, in order. After them nothing waits, or the answers end, or the next
   * answer took nothing; the client is lost exactly if bytes wait and that next answer is an error or zero. */
  ghost predicate Drained(before: Client, after: Client, socket: seq<SendResult>, k: nat)
  {
    && Counts(socket, k)
    && var n := |before.control.waiting|;
      && (k > 0 ==> Taken(socket, k - 1) < n)
      && TakenUpTo(before.control, after.control, Taken(socket, k))
      && (Taken(socket, k) >= n || k == |socket| || socket[k] == WouldBlock || socket[k] == Failed || socket[k] == Took(0))
      && (after.alive <==> before.alive && (Taken(socket, k) >= n || k == |socket| || socket[k] == WouldBlock))
      && after.data == before.data && after.failures == before.failures
  }

  /** The client with one more frame to send. */
  ghost function Queued(c: Client, frame: seq<Byte>): Client
  {
    c.(control := Channel(c.control.taken, c.control.waiting + frame), failures := 0)
  }

  /** The first count waiting bytes have been taken. */
  function Sent(ch: Channel, count: nat): Channel
    requires count <= |ch.waiting|
  {
    Channel(ch.taken + ch.waiting[..count], ch.waiting[count..])
  }

  /** A live client, a payload of legal size, and room in both budgets. */
  ghost predicate FrameFits(c: Client, globalBytes: nat, limit: nat, header: seq<Byte>, body: seq<Byte>)
  {
    && c.alive && |body| <= MAX_PAYLOAD
    && |c.control.waiting| + |header| + |body| <= MAX_BUFFER && globalBytes + |header| + |body| <= limit
  }

  lemma Appended(ch: Channel, first: seq<Byte>, second: seq<Byte>)
    ensures Stream(Channel(ch.taken, ch.waiting + first + second)) == Stream(ch) + (first + second)
  {
  }
}
