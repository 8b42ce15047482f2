/**
 * The wire format of KCP: a 24-byte little-endian header before each payload, 32-bit sequence
 * numbers compared by the sign of their difference, and the parser at the head of ikcp_input.
 * Sequence numbers are unbounded here; a header carries their residues modulo 2^32.
 */
module KcpWire {
  import opened Bytes

  const WORD: int := 0x1_0000_0000
  const HALF: int := 0x8000_0000
  const OVERHEAD: nat := 24
  const CMD_PUSH: Byte := 81
  const CMD_ACK: Byte := 82
  const CMD_WASK: Byte := 83
  const CMD_WINS: Byte := 84

  type U16 = x: int | 0 <= x < 0x1_0000
  type U32 = x: int | 0 <= x < WORD

  /** A segment in flight; its len field is the length of data. */
  datatype Packet = Packet(conv: U32, cmd: Byte, frg: Byte, wnd: U16, ts: U32, sn: int, una: int, data: seq<Byte>)

  // ---------------------------------------------------------------- serial numbers

  function Residue(x: int): (r: U32)
  {
    x % WORD
  }

  /** A 32-bit word read as two's complement. */
  function Signed(x: U32): (r: int)
  {
    if x < HALF then x else x - WORD
  }

  /** _itimediff: the difference of two 32-bit words as a signed 32-bit word. */
  function TimeDiff(later: int, earlier: int): (r: int)
  {
    Signed(Residue(later - earlier))
  }

  /** Only the residues matter, so comparing 32-bit words is comparing any numbers they stand for. */
  lemma TimeDiffOfResidues(a: int, b: int)
    ensures TimeDiff(Residue(a), Residue(b)) == TimeDiff(a, b)
  {
    assert (a % WORD - b % WORD) % WORD == (a - b) % WORD;
  }

  /** The signed comparison is the true difference if and only if that is within half the space. */
  lemma TimeDiffExact(a: int, b: int)
    ensures TimeDiff(a, b) == a - b <==> -HALF <= a - b < HALF
  {
  }

  /** The sign of the comparison, which is all that the code looks at, is right if and only if a is
   * an even number of half spaces ahead of b, counted downwards, when it is not behind, and an odd
   * number when it is. */
  lemma TimeDiffOrders(a: int, b: int)
    ensures (TimeDiff(a, b) >= 0 <==> a >= b) <==> ((a - b) / HALF % 2 == 0 <==> a >= b)
  {
    var d := a - b;
    var q, r := d / HALF, d % HALF;
    assert d == q * HALF + r;
    if q % 2 == 0 {
      ResidueIs(d, q / 2, r);
    } else {
      ResidueIs(d, q / 2, HALF + r);
    }
  }

  lemma ResidueIs(d: int, q: int, r: int)
    requires d == q * WORD + r && 0 <= r < WORD
    ensures Residue(d) == r
  {
  }

  /** A point where both fail: half the number space ahead looks like the past. */
  lemma TimeDiffWraps(b: int)
    ensures TimeDiff(b + HALF, b) == -HALF
  {
  }

  /** The number nearest to base that a received word can stand for. */
  function Unwrap(word: int, base: int): (r: int)
    ensures Residue(r) == Residue(word) && -HALF <= r - base < HALF
  {
    base + TimeDiff(word, base)
  }

  lemma UnwrapExact(x: int, base: int)
    requires -HALF <= x - base < HALF
    ensures Unwrap(Residue(x), base) == x
  {
    hide Residue, Signed;
    ResidueMinus(x, base);
    TimeDiffExact(x, base);
  }

  lemma ResidueMinus(x: int, b: int)
    ensures Residue(Residue(x) - b) == Residue(x - b)
  {
    var q, r := x / WORD, x % WORD;
    var p, t := (r - b) / WORD, (r - b) % WORD;
    assert x == q * WORD + r && r - b == p * WORD + t;
    ResidueIs(x - b, q + p, t);
    ResidueIs(r - b, p, t);
  }

  // ---------------------------------------------------------------- little-endian words

  function Encode16(x: U16): (r: seq<Byte>)
    ensures |r| == 2
  {
    [x % 256, x / 256]
  }

  function Encode32(x: U32): (r: seq<Byte>)
    ensures |r| == 4
  {
    [x % 256, x / 256 % 256, x / 0x1_0000 % 256, x / 0x100_0000]
  }

  function Decode16(s: seq<Byte>, at: nat): (x: U16)
    requires at + 2 <= |s|
  {
    var b0: int, b1: int := s[at], s[at + 1];
    b0 + 256 * b1
  }

  function Decode32(s: seq<Byte>, at: nat): (x: U32)
    requires at + 4 <= |s|
  {
    var b0: int, b1: int, b2: int, b3: int := s[at], s[at + 1], s[at + 2], s[at + 3];
    b0 + 0x100 * b1 + 0x1_0000 * b2 + 0x100_0000 * b3
  }

  lemma Decode16Encode(pre: seq<Byte>, x: U16, post: seq<Byte>)
    ensures Decode16(pre + Encode16(x) + post, |pre|) == x
  {
  }

  lemma Decode32Encode(pre: seq<Byte>, x: U32, post: seq<Byte>)
    ensures Decode32(pre + Encode32(x) + post, |pre|) == x
  {
    hide Encode32;
    var s, e := pre + Encode32(x) + post, Encode32(x);
    assert s[|pre|] == e[0] && s[|pre| + 1] == e[1] && s[|pre| + 2] == e[2] && s[|pre| + 3] == e[3];
    FourBytes(x);
  }

  lemma FourBytes(x: U32)
    ensures var e := Encode32(x); var b0: int, b1: int, b2: int, b3: int := e[0], e[1], e[2], e[3];
      b0 + 0x100 * b1 + 0x1_0000 * b2 + 0x100_0000 * b3 == x
  {
  }

  // ---------------------------------------------------------------- segments

  /** ikcp_encode_seg */
  function EncodeHeader(p: Packet): (r: seq<Byte>)
    requires |p.data| < WORD
    ensures |r| == OVERHEAD
  {
    Encode32(p.conv) + [p.cmd] + [p.frg] + Encode16(p.wnd) + Encode32(p.ts)
    + Encode32(Residue(p.sn)) + Encode32(Residue(p.una)) + Encode32(|p.data|)
  }

  /** The 24 bytes of a header, one by one: conv, cmd, frg, wnd, ts, sn, una and len, each with its lowest
   * byte first. */
  lemma HeaderLayout(p: Packet)
    requires |p.data| < WORD
    ensures var h, sn, una, n := EncodeHeader(p), p.sn % 0x1_0000_0000, p.una % 0x1_0000_0000, |p.data|;
      && h[0] == p.conv % 256 && h[1] == p.conv / 256 % 256 && h[2] == p.conv / 0x1_0000 % 256 && h[3] == p.conv / 0x100_0000
      && h[4] == p.cmd && h[5] == p.frg && h[6] == p.wnd % 256 && h[7] == p.wnd / 256
      && h[8] == p.ts % 256 && h[9] == p.ts / 256 % 256 && h[10] == p.ts / 0x1_0000 % 256 && h[11] == p.ts / 0x100_0000
      && h[12] == sn % 256 && h[13] == sn / 256 % 256 && h[14] == sn / 0x1_0000 % 256 && h[15] == sn / 0x100_0000
      && h[16] == una % 256 && h[17] == una / 256 % 256 && h[18] == una / 0x1_0000 % 256 && h[19] == una / 0x100_0000
      && h[20] == n % 256 && h[21] == n / 256 % 256 && h[22] == n / 0x1_0000 % 256 && h[23] == n / 0x100_0000
  {
    var h := EncodeHeader(p);
    var c, w, t := Encode32(p.conv), Encode16(p.wnd), Encode32(p.ts);
    var n, u, l := Encode32(Residue(p.sn)), Encode32(Residue(p.una)), Encode32(|p.data|);
    assert h[0..4] == c && h[6..8] == w && h[8..12] == t && h[12..16] == n && h[16..20] == u && h[20..24] == l;
    forall k | 0 <= k < 4
      ensures h[k] == c[k] && h[8 + k] == t[k] && h[12 + k] == n[k] && h[16 + k] == u[k] && h[20 + k] == l[k]
    {
    }
  }

  /** A header followed by its payload. */
  function Encode(p: Packet): (r: seq<Byte>)
    requires |p.data| < WORD
    ensures |r| == OVERHEAD + |p.data|
  {
    EncodeHeader(p) + p.data
  }

  function Size(ps: seq<Packet>): (n: nat)
  {
    if ps == [] then 0 else OVERHEAD + |ps[0].data| + Size(ps[1..])
  }

  ghost predicate Sendable(ps: seq<Packet>)
  {
    forall i :: 0 <= i < |ps| ==> |ps[i].data| < HALF
  }

  function EncodeAll(ps: seq<Packet>): (r: seq<Byte>)
    requires forall i :: 0 <= i < |ps| ==> |ps[i].data| < HALF
    ensures |r| == Size(ps)
  {
    if ps == [] then [] else Encode(ps[0]) + EncodeAll(ps[1..])
  }

  lemma {:induction false} SizeAppend(ps: seq<Packet>, p: Packet)
    ensures Size(ps + [p]) == Size(ps) + OVERHEAD + |p.data|
  {
    if ps == [] {
      assert ([] + [p])[1..] == [];
    } else {
      SizeAppend(ps[1..], p);
      assert (ps + [p])[1..] == ps[1..] + [p];
    }
  }

  lemma {:induction false} EncodeAppend(ps: seq<Packet>, p: Packet)
    requires Sendable(ps) && |p.data| < HALF
    ensures EncodeAll(ps + [p]) == EncodeAll(ps) + Encode(p)
  {
    if ps == [] {
      assert ([] + [p])[1..] == [];
    } else {
      EncodeAppend(ps[1..], p);
      assert (ps + [p])[1..] == ps[1..] + [p];
    }
  }

  // ---------------------------------------------------------------- parsing

  predicate Known(cmd: Byte)
  {
    cmd == CMD_PUSH || cmd == CMD_ACK || cmd == CMD_WASK || cmd == CMD_WINS
  }

  /** The fields of a header; the data of the result is the given payload. */
  function DecodeHeader(s: seq<Byte>, payload: seq<Byte>): (p: Packet)
    requires |s| >= OVERHEAD
  {
    Packet(Decode32(s, 0), s[4], s[5], Decode16(s, 6), Decode32(s, 8), Decode32(s, 12), Decode32(s, 16), payload)
  }

  function LengthField(s: seq<Byte>): (n: U32)
    requires |s| >= OVERHEAD
  {
    Decode32(s, 20)
  }

  /** The segments ikcp_input handles before it stops, and the result it then returns. */
  datatype Parsed = Parsed(segments: seq<Packet>, result: int)

  function ParseFrom(conv: U32, s: seq<Byte>): (r: Parsed)
    decreases |s|
  {
    if |s| < OVERHEAD then Parsed([], 0)
    else
      var len := LengthField(s);
      if Decode32(s, 0) != conv then Parsed([], -1)
      else if |s| - OVERHEAD < len || Signed(len) < 0 then Parsed([], -2)
      else if !Known(s[4]) then Parsed([], -3)
      else
        var rest := ParseFrom(conv, s[OVERHEAD + len..]);
        Parsed([DecodeHeader(s, s[OVERHEAD..OVERHEAD + len])] + rest.segments, rest.result)
  }

  function Parse(conv: U32, s: seq<Byte>): (r: Parsed)
  {
    if |s| < OVERHEAD then Parsed([], -1) else ParseFrom(conv, s)
  }

  /** What the receiver of a segment can see of it. */
  function Seen(p: Packet): Packet
  {
    p.(sn := Residue(p.sn), una := Residue(p.una))
  }

  function SeenAll(ps: seq<Packet>): (r: seq<Packet>)
    ensures |r| == |ps|
  {
    if ps == [] then [] else [Seen(ps[0])] + SeenAll(ps[1..])
  }

  lemma HeaderFields(p: Packet)
    requires |p.data| < WORD
    ensures DecodeHeader(EncodeHeader(p), p.data) == Seen(p) && LengthField(EncodeHeader(p)) == |p.data|
  {
    hide Encode32, Decode32, Encode16, Decode16;
    var h := EncodeHeader(p);
    var c, w, t := Encode32(p.conv), Encode16(p.wnd), Encode32(p.ts);
    var n, u, l := Encode32(Residue(p.sn)), Encode32(Residue(p.una)), Encode32(|p.data|);
    var b: seq<Byte> := [p.cmd] + [p.frg];
    assert h == [] + c + (b + w + t + n + u + l);
    Decode32Encode([], p.conv, b + w + t + n + u + l);
    assert h == (c + b) + w + (t + n + u + l);
    Decode16Encode(c + b, p.wnd, t + n + u + l);
    assert h == (c + b + w) + t + (n + u + l);
    Decode32Encode(c + b + w, p.ts, n + u + l);
    assert h == (c + b + w + t) + n + (u + l);
    Decode32Encode(c + b + w + t, Residue(p.sn), u + l);
    assert h == (c + b + w + t + n) + u + l;
    Decode32Encode(c + b + w + t + n, Residue(p.una), l);
    assert h == (c + b + w + t + n + u) + l + [];
    Decode32Encode(c + b + w + t + n + u, |p.data|, []);
    assert h[4] == p.cmd && h[5] == p.frg;
  }

  /** Bytes after a header do not change what is read from it. */
  lemma HeaderPrefix(h: seq<Byte>, tail: seq<Byte>, payload: seq<Byte>)
    requires |h| == OVERHEAD
    ensures DecodeHeader(h + tail, payload) == DecodeHeader(h, payload) && LengthField(h + tail) == LengthField(h)
  {
  }

  /** The parser takes the first encoded segment off the front. */
  lemma ParseEncoded(conv: U32, p: Packet, tail: seq<Byte>)
    requires |p.data| < HALF && p.conv == conv && Known(p.cmd)
    ensures var rest := ParseFrom(conv, tail);
      ParseFrom(conv, Encode(p) + tail) == Parsed([Seen(p)] + rest.segments, rest.result)
  {
    hide EncodeHeader, LengthField, DecodeHeader;
    var h, s := EncodeHeader(p), Encode(p) + tail;
    assert s == h + (p.data + tail);
    HeaderFields(p);
    HeaderPrefix(h, p.data + tail, p.data);
    assert s[OVERHEAD..OVERHEAD + |p.data|] == p.data;
    assert s[OVERHEAD + |p.data|..] == tail;
    HeaderReads(s, p.data);
    assert DecodeHeader(s, p.data) == Seen(p);
  }

  lemma HeaderReads(s: seq<Byte>, payload: seq<Byte>)
    requires |s| >= OVERHEAD
    ensures DecodeHeader(s, payload).conv == Decode32(s, 0) && DecodeHeader(s, payload).cmd == s[4]
  {
  }

  /** ikcp_input decodes an encoded datagram back to exactly its segments, with result 0. */
  lemma {:induction false} RoundTrip(conv: U32, ps: seq<Packet>)
    requires Sendable(ps) && forall i :: 0 <= i < |ps| ==> ps[i].conv == conv && Known(ps[i].cmd)
    ensures ParseFrom(conv, EncodeAll(ps)) == Parsed(SeenAll(ps), 0)
    ensures ps != [] ==> Parse(conv, EncodeAll(ps)) == Parsed(SeenAll(ps), 0)
  {
    hide Encode, ParseFrom;
    if ps == [] {
      ParseShort(conv, EncodeAll(ps));
    } else {
      RoundTrip(conv, ps[1..]);
      ParseEncoded(conv, ps[0], EncodeAll(ps[1..]));
    }
  }

  lemma ParseShort(conv: U32, s: seq<Byte>)
    requires |s| < OVERHEAD
    ensures ParseFrom(conv, s) == Parsed([], 0)
  {
  }

  /** One turn of the parsing loop. */
  lemma ParseStep(conv: U32, s: seq<Byte>)
    requires |s| >= OVERHEAD && Decode32(s, 0) == conv && Known(s[4])
    requires LengthField(s) <= |s| - OVERHEAD && LengthField(s) < HALF
    ensures var len := LengthField(s);
      var rest := ParseFrom(conv, s[OVERHEAD + len..]);
      ParseFrom(conv, s) == Parsed([DecodeHeader(s, s[OVERHEAD..OVERHEAD + len])] + rest.segments, rest.result)
  {
    hide Decode32, DecodeHeader;
  }
}
