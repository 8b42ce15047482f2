/**
 * Poly1305 (section 2.5 of RFC 8439) as monocypher computes it: 32-bit limbs, delayed carries and
 * a partial reduction modulo 2^130-5. Every variable has the width it has in C, so each assignment
 * carries the proof that it does not overflow. Masks and shifts by constants are written as
 * remainders and quotients.
 */
module Poly1305 {
  import opened Bytes
  import opened Numbers

  const W: int := 0x1_0000_0000
  const W2: int := 0x1_0000_0000_0000_0000
  const W3: int := 0x1_0000_0000_0000_0000_0000_0000
  const W4: int := 0x1_0000_0000_0000_0000_0000_0000_0000_0000
  /** 2^130 - 5 */
  const P: int := 0x3_ffff_ffff_ffff_ffff_ffff_ffff_ffff_fffb

  type U32 = x: int | 0 <= x < 0x1_0000_0000
  type U64 = x: int | 0 <= x < 0x1_0000_0000_0000_0000

  // ---------------------------------------------------------------- the standard

  /** A byte string as a little-endian number. */
  function Little(s: seq<Byte>): (n: nat)
  {
    if s == [] then 0 else s[0] + 256 * Little(s[1..])
  }

  function Times(a: int, b: int): (r: int)
    ensures a >= 0 && b >= 0 ==> r >= 0
  {
    a * b
  }

  function Mod(x: nat): (r: nat)
    ensures r < P
  {
    x % P
  }

  /** Where the last block of a message starts. */
  function LastBlock(n: nat): (k: nat)
    requires n > 0
    ensures k < n <= k + 16 && k % 16 == 0
  {
    (n - 1) / 16 * 16
  }

  /** The accumulator after all blocks of a message: add the block with a 1 byte beyond its end,
   * multiply by r, reduce. */
  function Accumulate(r: nat, msg: seq<Byte>): (a: nat)
  {
    if msg == [] then 0
    else
      var k := LastBlock(|msg|);
      Mod(Times(Accumulate(r, msg[..k]) + Little(msg[k..]) + Pow256(|msg| - k), r))
  }

  /** The clamped first half of a key: the top four bits of bytes 3, 7, 11 and 15 and the bottom
   * two bits of bytes 4, 8 and 12 are cleared. */
  function Clamp(key: seq<Byte>): (k: seq<Byte>)
    requires |key| == 32
    ensures |k| == 16
  {
    seq(16, i requires 0 <= i < 16 => ClampByte(key[i], i))
  }

  function ClampByte(b: Byte, i: nat): (r: Byte)
  {
    if i % 4 == 3 then b % 16 else if i == 4 || i == 8 || i == 12 then b - b % 4 else b
  }

  /** The tag as a number below 2^128. */
  function Tag(key: seq<Byte>, msg: seq<Byte>): (t: nat)
    requires |key| == 32
  {
    (Accumulate(Little(Clamp(key)), msg) + Little(key[16..])) % W4
  }

  // ---------------------------------------------------------------- limbs

  function Value4(a: int, b: int, c: int, d: int): int
  {
    a + b * W + c * W2 + d * W3
  }

  function Value5(a: int, b: int, c: int, d: int, e: int): int
  {
    a + b * W + c * W2 + d * W3 + e * W4
  }

  /** load32_le */
  function Load32(s: seq<Byte>, at: nat): (x: U32)
    requires at + 4 <= |s|
  {
    Word(s[at], s[at + 1], s[at + 2], s[at + 3])
  }

  function Word(b0: int, b1: int, b2: int, b3: int): int
  {
    b0 + 0x100 * b1 + 0x1_0000 * b2 + 0x100_0000 * b3
  }

  lemma LittleCons(b: Byte, s: seq<Byte>)
    ensures Little([b] + s) == b + 256 * Little(s)
  {
    assert ([b] + s)[1..] == s;
  }

  lemma LittleFour(s: seq<Byte>)
    requires |s| >= 4
    ensures Little(s) == Load32(s, 0) + W * Little(s[4..])
  {
    hide Little;
    var t := s[4..];
    var t3, t2, t1 := [s[3]] + t, [s[2]] + ([s[3]] + t), [s[1]] + ([s[2]] + ([s[3]] + t));
    LittleCons(s[3], t);
    LittleCons(s[2], t3);
    LittleCons(s[1], t2);
    LittleCons(s[0], t1);
    assert [s[0]] + t1 == s;
  }

  lemma LoadShift(s: seq<Byte>, k: nat, at: nat)
    requires k + at + 4 <= |s|
    ensures Load32(s[k..], at) == Load32(s, k + at)
  {
  }

  /** Sixteen bytes are four words. */
  lemma LittleWords(s: seq<Byte>)
    requires |s| == 16
    ensures Little(s) == Value4(Load32(s, 0), Load32(s, 4), Load32(s, 8), Load32(s, 12))
  {
    hide Load32, Little;
    var s1, s2, s3 := s[4..], s[8..], s[12..];
    LittleFour(s);
    LittleFour(s1);
    LittleFour(s2);
    LittleFour(s3);
    assert s1[4..] == s2 && s2[4..] == s3 && s3[4..] == [];
    LoadShift(s, 4, 0);
    LoadShift(s, 8, 0);
    LoadShift(s, 12, 0);
    LittleEmpty();
  }

  lemma LittleEmpty()
    ensures Little([]) == 0
  {
  }

  lemma TimesScaled(p: int, l: int)
    ensures Times(256 * p, l) == 256 * Times(p, l)
  {
  }

  lemma TimesOne(l: int)
    ensures Times(1, l) == l
  {
  }

  lemma {:induction false} LittleAppend(s: seq<Byte>, t: seq<Byte>)
    ensures Little(s + t) == Little(s) + Times(Pow256(|s|), Little(t))
  {
    hide Times;
    if s == [] {
      assert s + t == t;
      TimesOne(Little(t));
    } else {
      LittleAppend(s[1..], t);
      assert (s + t)[1..] == s[1..] + t;
      TimesScaled(Pow256(|s| - 1), Little(t));
    }
  }

  lemma {:induction false} LittleZeros(k: nat)
    ensures Little(seq(k, i => 0)) == 0
  {
    if k > 0 {
      LittleZeros(k - 1);
      assert seq(k, i => 0 as Byte)[1..] == seq(k - 1, i => 0 as Byte);
    }
  }

  lemma Powers()
    ensures Pow256(16) == W4
  {
    assert Pow256(4) == W;
    assert Pow256(8) == W2;
    assert Pow256(12) == W3;
  }

  // ---------------------------------------------------------------- the product of limbs

  ghost predicate Clamped(r0: U32, r1: U32, r2: U32, r3: U32)
  {
    r0 < 0x1000_0000 && r1 < 0x1000_0000 && r2 < 0x1000_0000 && r3 < 0x1000_0000 && r1 % 4 == r2 % 4 == r3 % 4 == 0
  }

  lemma MulBound(a: int, b: int, x: int, y: int)
    requires 0 <= a <= x && 0 <= b <= y
    ensures 0 <= a * b <= x * y
  {
    assert a * b <= a * y;
    assert a * y <= x * y;
  }

  lemma Spread(s0: int, s1: int, s2: int, s3: int, s4: int, r: int)
    ensures Value5(s0, s1, s2, s3, s4) * r == Value5(s0 * r, s1 * r, s2 * r, s3 * r, s4 * r)
  {
  }

  lemma SpreadRow(s: int, r0: int, r1: int, r2: int, r3: int)
    ensures s * Value4(r0, r1, r2, r3) == s * r0 + (s * r1) * W + (s * r2) * W2 + (s * r3) * W3
  {
  }

  lemma Quarter(s: int, r: int, q: int)
    requires r == 4 * q
    ensures s * r == 4 * (s * q) && s * (5 * q) == 5 * (s * q)
  {
  }

  lemma QuarterRest(s: int, r: int, q: int, t: int)
    requires r == 4 * q + t
    ensures s * r == 4 * (s * q) + s * t && s * (5 * q) == 5 * (s * q)
  {
  }

  /** The five column sums x, as poly_blocks forms them from the limbs s of h + c. */
  function Col0(s0: int, s1: int, s2: int, s3: int, s4: int, r0: int, r1: int, r2: int, r3: int): int
  {
    Times(s0, r0) + Times(s1, 5 * (r3 / 4)) + Times(s2, 5 * (r2 / 4)) + Times(s3, 5 * (r1 / 4)) + Times(s4, 5 * (r0 / 4))
  }

  function Col1(s0: int, s1: int, s2: int, s3: int, s4: int, r0: int, r1: int, r2: int, r3: int): int
  {
    Times(s0, r1) + Times(s1, r0) + Times(s2, 5 * (r3 / 4)) + Times(s3, 5 * (r2 / 4)) + Times(s4, 5 * (r1 / 4))
  }

  function Col2(s0: int, s1: int, s2: int, s3: int, s4: int, r0: int, r1: int, r2: int, r3: int): int
  {
    Times(s0, r2) + Times(s1, r1) + Times(s2, r0) + Times(s3, 5 * (r3 / 4)) + Times(s4, 5 * (r2 / 4))
  }

  function Col3(s0: int, s1: int, s2: int, s3: int, s4: int, r0: int, r1: int, r2: int, r3: int): int
  {
    Times(s0, r3) + Times(s1, r2) + Times(s2, r1) + Times(s3, r0) + Times(s4, 5 * (r3 / 4))
  }

  /** The multiple of 2^130-5 that the column sums leave out of the product. */
  function Excess(s1: int, s2: int, s3: int, s4: int, r0: int, r1: int, r2: int, r3: int): int
  {
    Value4(s1 * (r3 / 4) + s2 * (r2 / 4) + s3 * (r1 / 4) + s4 * (r0 / 4),
           s2 * (r3 / 4) + s3 * (r2 / 4) + s4 * (r1 / 4),
           s3 * (r3 / 4) + s4 * (r2 / 4),
           s4 * (r3 / 4))
  }

  /** The column sums are the product, up to a multiple of 2^130-5. */
  lemma Product(s0: int, s1: int, s2: int, s3: int, s4: int, r0: U32, r1: U32, r2: U32, r3: U32)
    requires Clamped(r0, r1, r2, r3)
    ensures Value5(s0, s1, s2, s3, s4) * Value4(r0, r1, r2, r3)
         == Value5(Col0(s0, s1, s2, s3, s4, r0, r1, r2, r3), Col1(s0, s1, s2, s3, s4, r0, r1, r2, r3),
                   Col2(s0, s1, s2, s3, s4, r0, r1, r2, r3), Col3(s0, s1, s2, s3, s4, r0, r1, r2, r3), Times(s4, r0 % 4))
          + P * Excess(s1, s2, s3, s4, r0, r1, r2, r3)
  {
    var q0, q1, q2, q3, t := r0 / 4, r1 / 4, r2 / 4, r3 / 4, r0 % 4;
    var v := Value4(r0, r1, r2, r3);
    Spread(s0, s1, s2, s3, s4, v);
    SpreadRow(s0, r0, r1, r2, r3);
    SpreadRow(s1, r0, r1, r2, r3);
    SpreadRow(s2, r0, r1, r2, r3);
    SpreadRow(s3, r0, r1, r2, r3);
    SpreadRow(s4, r0, r1, r2, r3);
    Quarter(s1, r3, q3);
    Quarter(s2, r2, q2);
    Quarter(s2, r3, q3);
    Quarter(s3, r1, q1);
    Quarter(s3, r2, q2);
    Quarter(s3, r3, q3);
    QuarterRest(s4, r0, q0, t);
    Quarter(s4, r1, q1);
    Quarter(s4, r2, q2);
    Quarter(s4, r3, q3);
  }

  /** None of the column sums overflows 64 bits, and the 32-bit products by s4 do not either. */
  lemma ColumnBounds(s0: int, s1: int, s2: int, s3: int, s4: int, r0: U32, r1: U32, r2: U32, r3: U32)
    requires Clamped(r0, r1, r2, r3)
    requires 0 <= s0 < 2 * W - 1 && 0 <= s1 < 2 * W - 1 && 0 <= s2 < 2 * W - 1 && 0 <= s3 < 2 * W - 1 && 0 <= s4 <= 5
    ensures 0 <= Col0(s0, s1, s2, s3, s4, r0, r1, r2, r3) <= 19 * 0x800_0000_0000_0000
    ensures 0 <= Col1(s0, s1, s2, s3, s4, r0, r1, r2, r3) <= 18 * 0x800_0000_0000_0000
    ensures 0 <= Col2(s0, s1, s2, s3, s4, r0, r1, r2, r3) <= 17 * 0x800_0000_0000_0000
    ensures 0 <= Col3(s0, s1, s2, s3, s4, r0, r1, r2, r3) / W <= 0x7fff_ffe6
    ensures 0 <= Times(s4, r0 % 4) <= 15
    ensures 0 <= Times(s4, 5 * (r0 / 4)) < W && 0 <= Times(s4, 5 * (r1 / 4)) < W
    ensures 0 <= Times(s4, 5 * (r2 / 4)) < W && 0 <= Times(s4, 5 * (r3 / 4)) < W
  {
    var m, k, j := 2 * W - 2, 0xfff_ffff, 0xfff_fffc;
    var f := 5 * 0x3ff_ffff;
    MulBound(s0, r0, m, k); MulBound(s1, r0, m, k); MulBound(s2, r0, m, k); MulBound(s3, r0, m, k);
    MulBound(s0, r1, m, j); MulBound(s1, r1, m, j); MulBound(s2, r1, m, j);
    MulBound(s0, r2, m, j); MulBound(s1, r2, m, j);
    MulBound(s0, r3, m, j);
    MulBound(s1, 5 * (r3 / 4), m, f); MulBound(s2, 5 * (r3 / 4), m, f); MulBound(s3, 5 * (r3 / 4), m, f);
    MulBound(s2, 5 * (r2 / 4), m, f); MulBound(s3, 5 * (r2 / 4), m, f);
    MulBound(s3, 5 * (r1 / 4), m, f);
    MulBound(s4, 5 * (r0 / 4), 5, f); MulBound(s4, 5 * (r1 / 4), 5, f);
    MulBound(s4, 5 * (r2 / 4), 5, f); MulBound(s4, 5 * (r3 / 4), 5, f);
    MulBound(s4, r0 % 4, 5, 3);
  }

  // ---------------------------------------------------------------- one block

  lemma SameMod(a: nat, b: nat, k: int)
    requires a == b + P * k
    ensures Mod(a) == Mod(b)
  {
    ModUnique(a, a / P, a % P);
    ModUnique(a, b / P + k, b % P);
    assert a == P * (b / P + k) + b % P;
  }

  lemma ModUnique(a: nat, q: int, r: nat)
    requires r < P && a == P * q + r
    ensures a % P == r
  {
  }

  lemma ModTimes(a: nat, r: nat)
    ensures Mod(a * r) == Mod(Mod(a) * r)
  {
    var q := a / P;
    assert a == P * q + Mod(a);
    assert a * r == Mod(a) * r + P * (q * r);
    SameMod(a * r, Mod(a) * r, q * r);
  }

  lemma ModPlusTimes(a: nat, c: nat, r: nat)
    ensures Mod((a + c) * r) == Mod((Mod(a) + c) * r)
  {
    var q := a / P;
    assert a + c == (Mod(a) + c) + P * q;
    SameMod(a + c, Mod(a) + c, q);
    ModTimes(a + c, r);
    ModTimes(Mod(a) + c, r);
  }

  /** The limbs of the accumulator: at most 4_ffffffff_ffffffff_ffffffff_ffffffff. */
  datatype Limbs = Limbs(h0: U32, h1: U32, h2: U32, h3: U32, h4: U32) {
    ghost predicate Small()
    {
      h4 <= 4
    }

    ghost function Value(): (v: nat)
    {
      Value5(h0, h1, h2, h3, h4)
    }
  }

  /** The body of the loop of poly_blocks: h = (h + c) * r, partially reduced. */
  method Block(h: Limbs, r0: U32, r1: U32, r2: U32, r3: U32, c0: U32, c1: U32, c2: U32, c3: U32, end: U32)
    returns (n: Limbs)
    requires h.Small() && Clamped(r0, r1, r2, r3) && end <= 1
    ensures n.Small()
    ensures Mod(n.Value()) == Mod(Times(h.Value() + Value4(c0, c1, c2, c3) + end * W4, Value4(r0, r1, r2, r3)))
  {
    hide Value5, Value4, Mod, Excess, Col0, Col1, Col2, Col3;
    var rr0: U32 := r0 / 4 * 5;
    var rr1: U32 := r1 / 4 + r1;
    var rr2: U32 := r2 / 4 + r2;
    var rr3: U32 := r3 / 4 + r3;
    var rr4: U32 := r0 % 4;
    // h + c, without carry propagation
    var s0: U64 := h.h0 + c0;
    var s1: U64 := h.h1 + c1;
    var s2: U64 := h.h2 + c2;
    var s3: U64 := h.h3 + c3;
    var s4: U32 := h.h4 + end;
    // (h + c) * r, without carry propagation; products by s4 are 32 bits wide
    var x0, x1, x2, x3, x4 := Columns(s0, s1, s2, s3, s4, r0, r1, r2, r3, rr0, rr1, rr2, rr3, rr4);
    n := Carry(x0, x1, x2, x3, x4);
    SumOfLimbs(h, c0, c1, c2, c3, end);
    ProductNatural(h.Value() + Value4(c0, c1, c2, c3) + end * W4, r0, r1, r2, r3);
    Product(s0, s1, s2, s3, s4, r0, r1, r2, r3);
    BlockValue(Value5(s0, s1, s2, s3, s4) * Value4(r0, r1, r2, r3), Value5(x0, x1, x2, x3, x4),
      Excess(s1, s2, s3, s4, r0, r1, r2, r3), n.Value(), (x4 + x3 / W) / 4);
  }

  lemma BlockValue(product: int, x: int, excess: int, n: nat, q: int)
    requires product == x + P * excess && x == n + P * q && product >= 0
    ensures Mod(n) == Mod(product)
  {
    hide Mod;
    assert P * excess + P * q == P * (excess + q);
    SameMod(product, n, excess + q);
  }

  lemma SumOfLimbs(h: Limbs, c0: U32, c1: U32, c2: U32, c3: U32, end: U32)
    ensures Value5(h.h0 + c0, h.h1 + c1, h.h2 + c2, h.h3 + c3, h.h4 + end) == h.Value() + Value4(c0, c1, c2, c3) + end * W4
    ensures h.Value() + Value4(c0, c1, c2, c3) + end * W4 >= 0
  {
  }

  lemma ProductNatural(v: nat, r0: U32, r1: U32, r2: U32, r3: U32)
    ensures v * Value4(r0, r1, r2, r3) >= 0
  {
  }

  method Columns(s0: U64, s1: U64, s2: U64, s3: U64, s4: U32, r0: U32, r1: U32, r2: U32, r3: U32,
    rr0: U32, rr1: U32, rr2: U32, rr3: U32, rr4: U32)
    returns (x0: U64, x1: U64, x2: U64, x3: U64, x4: U32)
    requires Clamped(r0, r1, r2, r3)
    requires s0 < 2 * W - 1 && s1 < 2 * W - 1 && s2 < 2 * W - 1 && s3 < 2 * W - 1 && s4 <= 5
    requires rr0 == 5 * (r0 / 4) && rr1 == 5 * (r1 / 4) && rr2 == 5 * (r2 / 4) && rr3 == 5 * (r3 / 4) && rr4 == r0 % 4
    ensures x0 == Col0(s0, s1, s2, s3, s4, r0, r1, r2, r3) && x1 == Col1(s0, s1, s2, s3, s4, r0, r1, r2, r3)
    ensures x2 == Col2(s0, s1, s2, s3, s4, r0, r1, r2, r3) && x3 == Col3(s0, s1, s2, s3, s4, r0, r1, r2, r3)
    ensures x4 == Times(s4, r0 % 4) && x4 <= 15
    ensures x0 <= 19 * 0x800_0000_0000_0000 && x1 <= 18 * 0x800_0000_0000_0000 && x2 <= 17 * 0x800_0000_0000_0000
    ensures x3 / W <= 0x7fff_ffe6
  {
    hide Times, Clamped;
    ColumnBounds(s0, s1, s2, s3, s4, r0, r1, r2, r3);
    var p0: U32 := Times(s4, rr0);
    var p1: U32 := Times(s4, rr1);
    var p2: U32 := Times(s4, rr2);
    var p3: U32 := Times(s4, rr3);
    x0 := Times(s0, r0) + Times(s1, rr3) + Times(s2, rr2) + Times(s3, rr1) + p0;
    x1 := Times(s0, r1) + Times(s1, r0) + Times(s2, rr3) + Times(s3, rr2) + p1;
    x2 := Times(s0, r2) + Times(s1, r1) + Times(s2, r0) + Times(s3, rr3) + p2;
    x3 := Times(s0, r3) + Times(s1, r2) + Times(s2, r1) + Times(s3, r0) + p3;
    x4 := Times(s4, rr4);
  }

  /** The partial reduction: the carry out of the top limb comes back five times. */
  method Carry(x0: U64, x1: U64, x2: U64, x3: U64, x4: U32) returns (n: Limbs)
    requires x0 <= 19 * 0x800_0000_0000_0000 && x1 <= 18 * 0x800_0000_0000_0000 && x2 <= 17 * 0x800_0000_0000_0000
    requires x3 / W <= 0x7fff_ffe6 && x4 <= 15
    ensures n.Small()
    ensures Value5(x0, x1, x2, x3, x4) == n.Value() + P * ((x4 + x3 / W) / 4)
  {
    var u5: U32 := x4 + x3 / W;
    var fives: U32 := u5 / 4 * 5;
    var u0: U64 := fives + x0 % W;
    var u1: U64 := u0 / W + x1 % W + x0 / W;
    var u2: U64 := u1 / W + x2 % W + x1 / W;
    var u3: U64 := u2 / W + x3 % W + x2 / W;
    var u4: U32 := u3 / W + u5 % 4;
    n := Limbs(u0 % W, u1 % W, u2 % W, u3 % W, u4);
    assert x0 == x0 / W * W + x0 % W && x1 == x1 / W * W + x1 % W && x2 == x2 / W * W + x2 % W && x3 == x3 / W * W + x3 % W;
    assert u0 == u0 / W * W + u0 % W && u1 == u1 / W * W + u1 % W && u2 == u2 / W * W + u2 % W && u3 == u3 / W * W + u3 % W;
  }
}
