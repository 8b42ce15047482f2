/**
 * The incremental interface of Poly1305 in monocypher: a context that absorbs a message in chunks
 * of any sizes. The context always stands for the message absorbed so far, so the tag depends on
 * the concatenation of the chunks alone, and it is the tag of section 2.5 of RFC 8439.
 */
module Poly1305Stream {
  import opened Bytes
  import opened Numbers
  import opened Poly1305

  // ---------------------------------------------------------------- whole blocks

  /** The accumulator after nb blocks of s from accumulator a; end is the bit above each block. */
  ghost function Fold(r: nat, a: nat, s: seq<Byte>, nb: nat, end: nat): (n: nat)
    requires 16 * nb <= |s|
  {
    if nb == 0 then a
    else Mod(Times(Fold(r, a, s, nb - 1, end) + Little(s[16 * nb - 16..16 * nb]) + end * W4, r))
  }

  lemma {:induction false} FoldAccumulates(r: nat, before: seq<Byte>, s: seq<Byte>, nb: nat)
    requires |before| % 16 == 0 && 16 * nb <= |s|
    ensures Fold(r, Accumulate(r, before), s, nb, 1) == Accumulate(r, before + s[..16 * nb])
  {
    hide Mod, Times, Accumulate, Little, Pow256;
    if nb == 0 {
      assert before + s[..0] == before;
    } else {
      FoldAccumulates(r, before, s, nb - 1);
      var msg, k := before + s[..16 * nb], |before| + 16 * nb - 16;
      assert msg[..k] == before + s[..16 * nb - 16];
      assert msg[k..] == s[16 * nb - 16..16 * nb];
      AccumulateLast(r, msg, k);
      Powers();
    }
  }

  lemma AccumulateLast(r: nat, msg: seq<Byte>, k: nat)
    requires k < |msg| <= k + 16 && k % 16 == 0
    ensures Accumulate(r, msg) == Mod(Times(Accumulate(r, msg[..k]) + Little(msg[k..]) + Pow256(|msg| - k), r))
  {
    hide Mod, Times, Little, Pow256, LastBlock;
    LastBlockIs(|msg|, k);
  }

  lemma LastBlockIs(n: nat, k: nat)
    requires k < n <= k + 16 && k % 16 == 0
    ensures LastBlock(n) == k
  {
  }

  /** One block step on the full accumulator is the same step on the reduced one. */
  lemma StepReduced(h: nat, c: nat, e: nat, r: nat)
    ensures Mod((h + c + e) * r) == Mod(Times(Mod(h) + c + e, r))
  {
    hide Mod;
    ModPlusTimes(h, c + e, r);
  }

  /** A partial block with a 1 byte after it. */
  lemma PaddedBlock(tail: seq<Byte>, block: seq<Byte>)
    requires |tail| < 16 && block == tail + [1] + seq<Byte>(15 - |tail|, i => 0)
    ensures Little(block) == Little(tail) + Pow256(|tail|)
  {
    hide Little, Times, Pow256;
    var zeros := seq<Byte>(15 - |tail|, i => 0);
    assert block == tail + ([1] + zeros);
    LittleAppend(tail, [1] + zeros);
    LittleCons(1, zeros);
    LittleZeros(15 - |tail|);
    TimesOneRight(Pow256(|tail|));
  }

  lemma TimesOneRight(x: int)
    ensures Times(x, 1) == x
  {
  }

  // ---------------------------------------------------------------- the final reduction

  ghost function CarryOut(h: seq<U32>, i: nat): (c: nat)
    requires i <= |h|
    ensures c <= 5
  {
    if i == 0 then 5 else (CarryOut(h, i - 1) + h[i - 1]) / W
  }

  /** The carry chain finds whether 2^130-5 has to be subtracted. */
  lemma CarryTotal(h: seq<U32>)
    requires |h| == 5 && h[4] <= 4
    ensures var v := Value5(h[0], h[1], h[2], h[3], h[4]);
      (CarryOut(h, 4) + h[4]) / 4 == if v >= P then 1 else 0
  {
    assert CarryOut(h, 0) == 5;
    assert CarryOut(h, 1) == (5 + h[0]) / W;
    assert CarryOut(h, 2) == (CarryOut(h, 1) + h[1]) / W;
    assert CarryOut(h, 3) == (CarryOut(h, 2) + h[2]) / W;
    assert CarryOut(h, 4) == (CarryOut(h, 3) + h[3]) / W;
  }

  ghost function AddOut(c: nat, h: seq<U32>, pad: seq<U32>, i: nat): (n: nat)
    requires i <= |h| && i <= |pad|
  {
    if i == 0 then c else (AddOut(c, h, pad, i - 1) + h[i - 1] + pad[i - 1]) / W
  }

  ghost function AddWord(c: nat, h: seq<U32>, pad: seq<U32>, i: nat): (w: U32)
    requires i < |h| && i < |pad|
  {
    (AddOut(c, h, pad, i) + h[i] + pad[i]) % W
  }

  lemma AddTotal(c: nat, h: seq<U32>, pad: seq<U32>)
    requires |h| == 5 && |pad| == 4 && c <= 5
    ensures Value4(AddWord(c, h, pad, 0), AddWord(c, h, pad, 1), AddWord(c, h, pad, 2), AddWord(c, h, pad, 3))
      == (c + Value4(h[0], h[1], h[2], h[3]) + Value4(pad[0], pad[1], pad[2], pad[3])) % W4
  {
    var a1, a2, a3, a4 := AddOut(c, h, pad, 1), AddOut(c, h, pad, 2), AddOut(c, h, pad, 3), AddOut(c, h, pad, 4);
    AddNext(c, h, pad, 0);
    AddNext(c, h, pad, 1);
    AddNext(c, h, pad, 2);
    AddNext(c, h, pad, 3);
    assert AddOut(c, h, pad, 0) == c;
    hide AddOut, AddWord;
    Unique(Value4(AddWord(c, h, pad, 0), AddWord(c, h, pad, 1), AddWord(c, h, pad, 2), AddWord(c, h, pad, 3)), a4,
      c + Value4(h[0], h[1], h[2], h[3]) + Value4(pad[0], pad[1], pad[2], pad[3]));
  }

  lemma AddNext(c: nat, h: seq<U32>, pad: seq<U32>, i: nat)
    requires i < |h| && i < |pad|
    ensures AddOut(c, h, pad, i) + h[i] + pad[i] == AddOut(c, h, pad, i + 1) * W + AddWord(c, h, pad, i)
  {
    DivMod(AddOut(c, h, pad, i) + h[i] + pad[i]);
  }

  lemma DivMod(x: nat)
    ensures x == x / W * W + x % W && 0 <= x % W < W
  {
  }

  lemma Unique(r: nat, q: nat, x: nat)
    requires r < W4 && x == r + q * W4
    ensures x % W4 == r
  {
  }

  /** Subtracting 2^130-5 when the carry says so gives the canonical remainder, modulo 2^128. */
  lemma FinalValue(h: seq<U32>, s: nat)
    requires |h| == 5 && h[4] <= 4
    ensures var v := Value5(h[0], h[1], h[2], h[3], h[4]);
      var c := (CarryOut(h, 4) + h[4]) / 4 * 5;
      (c + Value4(h[0], h[1], h[2], h[3]) + s) % W4 == (Mod(v) + s) % W4
  {
    var v := Value5(h[0], h[1], h[2], h[3], h[4]);
    CarryTotal(h);
    if v >= P {
      ModUnique(v, 1, v - P);
      assert 5 + Value4(h[0], h[1], h[2], h[3]) + s == Mod(v) + s + (4 - h[4]) * W4;
      SameLow(Mod(v) + s, 4 - h[4]);
    } else {
      ModUnique(v, 0, v);
      assert v + s == Value4(h[0], h[1], h[2], h[3]) + s + h[4] * W4;
      SameLow(Value4(h[0], h[1], h[2], h[3]) + s, h[4]);
    }
  }

  lemma SameLow(x: nat, k: nat)
    ensures (x + k * W4) % W4 == x % W4
  {
    var q := x / W4;
    Unique(x % W4, q + k, x + k * W4);
  }

  // ---------------------------------------------------------------- words and bytes

  /** store32_le */
  function Store32(x: U32): (s: seq<Byte>)
    ensures |s| == 4
  {
    [x % 256, x / 256 % 256, x / 0x1_0000 % 256, x / 0x100_0000]
  }

  lemma LoadStore(x: U32)
    ensures Load32(Store32(x), 0) == x
  {
  }

  lemma StoredWords(a: U32, b: U32, c: U32, d: U32)
    ensures Little(Store32(a) + Store32(b) + Store32(c) + Store32(d)) == Value4(a, b, c, d)
  {
    hide Store32, Little, Load32;
    var s := Store32(a) + Store32(b) + Store32(c) + Store32(d);
    LittleWords(s);
    LoadStore(a);
    LoadStore(b);
    LoadStore(c);
    LoadStore(d);
    assert s[0..4] == Store32(a) && s[4..8] == Store32(b) && s[8..12] == Store32(c) && s[12..16] == Store32(d);
    LoadSlice(s, 0);
    LoadSlice(s, 4);
    LoadSlice(s, 8);
    LoadSlice(s, 12);
  }

  lemma LoadSlice(s: seq<Byte>, at: nat)
    requires at + 4 <= |s|
    ensures Load32(s, at) == Load32(s[at..at + 4], 0)
  {
  }

  /** Clearing bits of the words is clearing bits of the bytes. */
  lemma ClampWords(key: seq<Byte>)
    requires |key| == 32
    ensures Load32(Clamp(key), 0) == Load32(key, 0) % 0x1000_0000
    ensures Load32(Clamp(key), 4) == ClearTwo(Load32(key, 4) % 0x1000_0000)
    ensures Load32(Clamp(key), 8) == ClearTwo(Load32(key, 8) % 0x1000_0000)
    ensures Load32(Clamp(key), 12) == ClearTwo(Load32(key, 12) % 0x1000_0000)
  {
    hide Word, ClearTwo;
    ClampTop(key[0], key[1], key[2], key[3]);
    ClampWord(key, 4);
    ClampWord(key, 8);
    ClampWord(key, 12);
  }

  lemma ClampWord(key: seq<Byte>, at: nat)
    requires |key| == 32 && (at == 4 || at == 8 || at == 12)
    ensures Load32(Clamp(key), at) == ClearTwo(Load32(key, at) % 0x1000_0000)
  {
    var k := Clamp(key);
    hide Word;
    assert k[at] == key[at] - key[at] % 4 && k[at + 1] == key[at + 1] && k[at + 2] == key[at + 2] && k[at + 3] == key[at + 3] % 16;
    ClampBoth(key[at], key[at + 1], key[at + 2], key[at + 3]);
  }

  /** x & ~3 */
  function ClearTwo(x: U32): (r: U32)
    ensures r % 4 == 0
  {
    x - x % 4
  }

  lemma ClampTop(b0: Byte, b1: Byte, b2: Byte, b3: Byte)
    ensures Word(b0, b1, b2, b3) % 0x1000_0000 == Word(b0, b1, b2, b3 % 16)
  {
  }

  lemma ClampBoth(b0: Byte, b1: Byte, b2: Byte, b3: Byte)
    ensures Word(b0, b1, b2, b3) % 0x1000_0000 - Word(b0, b1, b2, b3) % 0x1000_0000 % 4 == Word(b0 - b0 % 4, b1, b2, b3 % 16)
  {
    hide Word;
    ClampTop(b0, b1, b2, b3);
    LowBits(b0, b1, b2, b3 % 16);
  }

  /** The lowest two bits of a word are those of its lowest byte. */
  lemma LowBits(b0: Byte, b1: Byte, b2: Byte, b3: Byte)
    ensures Word(b0, b1, b2, b3) % 4 == b0 % 4
    ensures Word(b0, b1, b2, b3) - b0 % 4 == Word(b0 - b0 % 4, b1, b2, b3)
  {
    ModFour(b0, 0x40 * b1 + 0x4000 * b2 + 0x40_0000 * b3);
  }

  lemma ModFour(b: nat, m: int)
    ensures (b + 4 * m) % 4 == b % 4
  {
  }

  // ---------------------------------------------------------------- steps of the methods

  /** The loaded and cleared words are the clamped key and the pad. */
  lemma KeyWords(key: seq<Byte>)
    requires |key| == 32
    ensures Value4(Load32(key, 0) % 0x1000_0000, ClearTwo(Load32(key, 4) % 0x1000_0000),
                   ClearTwo(Load32(key, 8) % 0x1000_0000), ClearTwo(Load32(key, 12) % 0x1000_0000)) == Little(Clamp(key))
    ensures Value4(Load32(key, 16), Load32(key, 20), Load32(key, 24), Load32(key, 28)) == Little(key[16..])
  {
    hide Little, Value4, Load32, ClearTwo;
    ClampWords(key);
    LittleWords(Clamp(key));
    LittleWords(key[16..]);
    LoadShift(key, 16, 0);
    LoadShift(key, 16, 4);
    LoadShift(key, 16, 8);
    LoadShift(key, 16, 12);
  }

  lemma FoldNone(r: nat, a: nat, s: seq<Byte>, end: nat)
    ensures Fold(r, a, s, 0, end) == a
  {
  }

  lemma FoldNext(r: nat, a: nat, s: seq<Byte>, i: nat, end: nat, h: nat)
    requires 16 * i + 16 <= |s| && Mod(h) == Fold(r, a, s, i, end)
    ensures var c := Value4(Load32(s, 16 * i), Load32(s, 16 * i + 4), Load32(s, 16 * i + 8), Load32(s, 16 * i + 12));
      c >= 0 && (h + c + end * W4) * r >= 0 && Mod((h + c + end * W4) * r) == Fold(r, a, s, i + 1, end)
  {
    hide Mod, Times, Little, Load32;
    var block := s[16 * i..16 * i + 16];
    LittleWords(block);
    LoadPart(s, 16 * i, 0);
    LoadPart(s, 16 * i, 4);
    LoadPart(s, 16 * i, 8);
    LoadPart(s, 16 * i, 12);
    StepReduced(h, Little(block), end * W4, r);
  }

  lemma LoadPart(s: seq<Byte>, k: nat, at: nat)
    requires at + 4 <= 16 && k + 16 <= |s|
    ensures Load32(s[k..k + 16], at) == Load32(s, k + at)
  {
  }

  /** The last, incomplete block of a message. */
  lemma FinishPartial(r: nat, msg: seq<Byte>, tail: seq<Byte>, block: seq<Byte>, a: nat)
    requires 0 < |tail| < 16 && |tail| <= |msg| && msg[|msg| - |tail|..] == tail && (|msg| - |tail|) % 16 == 0
    requires block == tail + [1] + seq<Byte>(15 - |tail|, i => 0)
    requires a == Accumulate(r, msg[..|msg| - |tail|])
    ensures Fold(r, a, block, 1, 0) == Accumulate(r, msg)
  {
    hide Mod, Times, Little, Accumulate, Pow256;
    PaddedBlock(tail, block);
    AccumulateLast(r, msg, |msg| - |tail|);
    FoldNone(r, a, block, 0);
    assert block[0..16] == block;
  }

  lemma CarryNext(h: seq<U32>, i: nat)
    requires i < |h|
    ensures CarryOut(h, i + 1) == (CarryOut(h, i) + h[i]) / W
  {
  }

  lemma CarryStart(h: seq<U32>)
    ensures CarryOut(h, 0) == 5
  {
  }

  lemma AddNextOut(c: nat, h: seq<U32>, pad: seq<U32>, i: nat)
    requires i < |h| && i < |pad|
    ensures AddOut(c, h, pad, i + 1) == (AddOut(c, h, pad, i) + h[i] + pad[i]) / W
  {
  }

  lemma AddNone(c: nat, h: seq<U32>, pad: seq<U32>)
    ensures AddOut(c, h, pad, 0) == c
  {
  }

  lemma ClearedWords(key: seq<Byte>)
    requires |key| == 32
    ensures Clamped(Load32(key, 0) % 0x1000_0000, ClearTwo(Load32(key, 4) % 0x1000_0000),
                    ClearTwo(Load32(key, 8) % 0x1000_0000), ClearTwo(Load32(key, 12) % 0x1000_0000))
  {
    hide Load32;
  }

  /** A message taken in three parts. */
  lemma Appended(a: seq<Byte>, m: seq<Byte>, i: nat, j: nat)
    requires i <= |m| && j <= |m| - i
    ensures ((a + m[..i]) + m[i..][..j]) + m[i..][j..] == a + m
  {
    assert m[i..][..j] + m[i..][j..] == m[i..];
    assert m == m[..i] + m[i..];
  }

  /** Initially nothing has been taken. */
  lemma StartValue(r: nat)
    ensures Mod(Value5(0, 0, 0, 0, 0)) == Accumulate(r, [])
  {
  }

  // ---------------------------------------------------------------- the context

  class Poly1305Ctx {
    const c: array<Byte>
    var cIdx: nat
    const r: array<U32>
    const pad: array<U32>
    const h: array<U32>
    /** The key, and the message absorbed since crypto_poly1305_init. */
    ghost var key: seq<Byte>
    ghost var absorbed: seq<Byte>

    ghost predicate Shape()
    {
      && c.Length == 16 && r.Length == 4 && pad.Length == 4 && h.Length == 5
      && r != pad && r != h && pad != h
    }

    ghost function Hash(): (l: Limbs)
      requires Shape()
      reads h
    {
      Limbs(h[0], h[1], h[2], h[3], h[4])
    }

    ghost function Multiplier(): (n: nat)
      requires Shape()
      reads r
    {
      Value4(r[0], r[1], r[2], r[3])
    }

    /** What poly_blocks needs of the context. */
    ghost predicate Ready()
      reads r, h
    {
      Shape() && Clamped(r[0], r[1], r[2], r[3]) && Hash().Small()
    }

    /** The key is loaded and the accumulator has taken the whole blocks before done bytes. */
    ghost predicate Took(done: seq<Byte>)
      reads this`key, r, pad, h
    {
      && Ready() && |key| == 32
      && Multiplier() == Little(Clamp(key))
      && Value4(pad[0], pad[1], pad[2], pad[3]) == Little(key[16..])
      && |done| % 16 == 0 && Mod(Hash().Value()) == Accumulate(Multiplier(), done)
    }

    ghost function Buffered(): (n: nat)
      reads this
    {
      if cIdx <= |absorbed| then |absorbed| - cIdx else 0
    }

    ghost predicate Valid()
      reads this, c, r, pad, h
    {
      && Shape() && cIdx < 16 && cIdx <= |absorbed|
      && Took(absorbed[..Buffered()])
      && c[..cIdx] == absorbed[Buffered()..]
    }

    constructor ()
      ensures Shape() && fresh(c) && fresh(r) && fresh(pad) && fresh(h)
    {
      c := new Byte[16];
      r, pad, h := new U32[4], new U32[4], new U32[5];
      cIdx, key, absorbed := 0, [], [];
    }

    /** crypto_poly1305_init */
    method Init(k: seq<Byte>)
      requires Shape() && |k| == 32
      modifies this, r, pad, h
      ensures Valid() && absorbed == [] && key == k
    {
      hide Load32, ClearTwo, Mod, Value4, Value5, Clamp, Little, Accumulate;
      h[0], h[1], h[2], h[3], h[4] := 0, 0, 0, 0, 0;
      cIdx := 0;
      LoadWords(r, k, 0);
      LoadWords(pad, k, 16);
      ClearBits();
      key, absorbed := k, [];
      KeyWords(k);
      ClearedWords(k);
      StartValue(Multiplier());
      assert absorbed[..0] == [] && c[..0] == [];
    }

    /** Clear the bits of r that a multiplier must not have. */
    method ClearBits()
      requires Shape()
      modifies r
      ensures r[0] == old(r[0]) % 0x1000_0000
      ensures forall j: nat :: 1 <= j < 4 ==> r[j] == ClearTwo(old(r[j]) % 0x1000_0000)
    {
      hide ClearTwo;
      r[0] := r[0] % 0x1000_0000;
      for i := 1 to 4
        invariant r[0] == old(r[0]) % 0x1000_0000
        invariant forall j: nat :: 1 <= j < i ==> r[j] == ClearTwo(old(r[j]) % 0x1000_0000)
        invariant forall j: nat :: i <= j < 4 ==> r[j] == old(r[j])
      {
        r[i] := ClearTwo(r[i] % 0x1000_0000);
      }
    }

    /** load32_le_buf, for four words */
    method LoadWords(dst: array<U32>, src: seq<Byte>, at: nat)
      requires dst.Length == 4 && at + 16 <= |src|
      modifies dst
      ensures forall j: nat :: j < 4 ==> dst[j] == Load32(src, at + 4 * j)
    {
      hide Load32;
      for i := 0 to 4
        invariant forall j: nat :: j < i ==> dst[j] == Load32(src, at + 4 * j)
      {
        dst[i] := Load32(src, at + 4 * i);
      }
    }

    /** poly_blocks */
    method PolyBlocks(input: seq<Byte>, nb: nat, end: U32)
      requires Ready() && 16 * nb <= |input| && end <= 1
      modifies h
      ensures Ready() && Mod(Hash().Value()) == Fold(Multiplier(), Mod(old(Hash().Value())), input, nb, end)
    {
      hide Fold, Mod, Value4, Value5, Load32, Clamped;
      var l := Limbs(h[0], h[1], h[2], h[3], h[4]);
      var r0, r1, r2, r3 := r[0], r[1], r[2], r[3];
      ghost var start := Mod(l.Value());
      ghost var m := Multiplier();
      FoldNone(m, start, input, end);
      for i := 0 to nb
        invariant l.Small() && Mod(l.Value()) == Fold(m, start, input, i, end)
      {
        FoldNext(m, start, input, i, end, l.Value());
        l := Block(l, r0, r1, r2, r3, Load32(input, 16 * i), Load32(input, 16 * i + 4),
                   Load32(input, 16 * i + 8), Load32(input, 16 * i + 12), end);
      }
      h[0], h[1], h[2], h[3], h[4] := l.h0, l.h1, l.h2, l.h3, l.h4;
    }

    /** Whole blocks of a message extend what the accumulator has taken. */
    method Take(input: seq<Byte>, nb: nat, ghost done: seq<Byte>)
      requires Shape() && Took(done) && 16 * nb <= |input|
      modifies h
      ensures Took(done + input[..16 * nb])
    {
      hide Fold, Mod, Value4, Accumulate, Clamped, Clamp, Little;
      FoldAccumulates(Multiplier(), done, input, nb);
      PolyBlocks(input, nb, 1);
    }

    /** The message so far is what the accumulator has taken and then the buffered bytes. */
    ghost predicate Pending(done: seq<Byte>)
      reads this, c, r, pad, h
    {
      Shape() && cIdx <= 16 && absorbed == done + c[..cIdx] && Took(done)
    }

    /** crypto_poly1305_update */
    method Update(message: seq<Byte>)
      requires Valid()
      modifies this`cIdx, this`absorbed, c, h
      ensures Valid() && absorbed == old(absorbed) + message && key == old(key)
    {
      hide Valid, Pending;
      ghost var done := Split();
      if |message| == 0 {
        assert absorbed + message == absorbed;
        return;
      }
      var gap := (16 - cIdx) % 16;
      var aligned := if gap < |message| then gap else |message|;
      Fill(message[..aligned], done);
      done := FlushFull(done);
      var rest := message[aligned..];
      var blocks := |rest| / 16;
      done := TakeBlocks(rest, blocks, done);
      Fill(rest[16 * blocks..], done);
      Join(done);
      Appended(old(absorbed), message, aligned, 16 * blocks);
    }

    ghost method Split() returns (done: seq<Byte>)
      requires Valid()
      ensures Pending(done) && cIdx < 16
    {
      done := absorbed[..Buffered()];
    }

    lemma Join(done: seq<Byte>)
      requires Pending(done) && cIdx < 16
      ensures Valid()
    {
      assert absorbed[..Buffered()] == done;
    }

    /** Bytes that do not complete a block, or just complete it, go to the block buffer. */
    method Fill(bytes: seq<Byte>, ghost done: seq<Byte>)
      requires Pending(done) && cIdx + |bytes| <= 16
      modifies this`cIdx, this`absorbed, c
      ensures Pending(done) && cIdx == old(cIdx) + |bytes| && absorbed == old(absorbed) + bytes
    {
      hide Took;
      ghost var start := cIdx;
      for i := 0 to |bytes|
        invariant cIdx == start + i && absorbed == old(absorbed) && Took(done)
        invariant c[..cIdx] == old(c[..cIdx]) + bytes[..i]
      {
        c[cIdx] := bytes[i];
        cIdx := cIdx + 1;
      }
      assert bytes[..|bytes|] == bytes;
      absorbed := absorbed + bytes;
    }

    /** If the block is complete, process it. */
    method FlushFull(ghost done0: seq<Byte>) returns (ghost done: seq<Byte>)
      requires Pending(done0)
      modifies this`cIdx, h
      ensures Pending(done) && cIdx == if old(cIdx) == 16 then 0 else old(cIdx)
    {
      hide Took;
      done := done0;
      if cIdx == 16 {
        assert c[..][..16] == c[..];
        Take(c[..], 1, done);
        done := done + c[..];
        cIdx := 0;
      }
    }

    /** Process the message block by block. */
    method TakeBlocks(rest: seq<Byte>, blocks: nat, ghost done0: seq<Byte>) returns (ghost done: seq<Byte>)
      requires Pending(done0) && 16 * blocks <= |rest| && (blocks > 0 ==> cIdx == 0)
      modifies this`absorbed, h
      ensures Pending(done) && absorbed == old(absorbed) + rest[..16 * blocks]
    {
      hide Took;
      Take(rest, blocks, done0);
      done := done0 + rest[..16 * blocks];
      absorbed := absorbed + rest[..16 * blocks];
      assert blocks == 0 ==> rest[..16 * blocks] == [];
    }

    /** crypto_poly1305_final. The context is wiped in the source; here it stays unspecified. */
    method Final() returns (mac: seq<Byte>)
      requires Valid()
      modifies this, c, h
      ensures |mac| == 16 && Little(mac) == Tag(old(key), old(absorbed))
    {
      hide Little, Clamp, Mod, Accumulate, Value4, Value5, Clamped;
      ghost var m, s := Multiplier(), Little(key[16..]);
      if cIdx != 0 {
        ghost var tail := c[..cIdx];
        PadBlock();
        FinishPartial(m, absorbed, tail, c[..], Mod(Hash().Value()));
        PolyBlocks(c[..], 1, 0);
      } else {
        assert absorbed[..|absorbed|] == absorbed;
      }
      assert Mod(Hash().Value()) == Accumulate(m, absorbed);
      mac := Output(s);
    }

    method PadBlock()
      requires Shape() && cIdx < 16
      modifies c
      ensures c[..] == old(c[..cIdx]) + [1] + seq<Byte>(15 - cIdx, i => 0)
    {
      for i := cIdx to 16
        invariant c[..cIdx] == old(c[..cIdx])
        invariant forall j :: cIdx <= j < i ==> c[j] == 0
      {
        c[i] := 0;
      }
      c[cIdx] := 1;
    }

    /** The carry chain, the conditional subtraction and the addition of the pad. */
    method Output(ghost s: nat) returns (mac: seq<Byte>)
      requires Ready() && Value4(pad[0], pad[1], pad[2], pad[3]) == s
      ensures |mac| == 16 && Little(mac) == (Mod(Hash().Value()) + s) % W4
    {
      hide Little, Mod, Value4, Value5, Clamped, Store32, CarryOut, AddOut, AddWord;
      ghost var hs, ps := h[..], pad[..];
      var carry := CarryChain();
      CarryTotal(hs);
      carry := (carry + h[4]) / 4 * 5;
      var w0, w1, w2, w3 := AddChain(carry);
      mac := Store32(w0) + Store32(w1) + Store32(w2) + Store32(w3);
      StoredWords(w0, w1, w2, w3);
      AddTotal(carry, hs, ps);
      FinalValue(hs, s);
    }

    /** The carry out of h + 5 at bit 128. */
    method CarryChain() returns (carry: U64)
      requires Shape()
      ensures carry == CarryOut(h[..], 4) <= 5
    {
      hide CarryOut;
      ghost var hs := h[..];
      carry := 5;
      CarryStart(hs);
      for i := 0 to 4
        invariant carry == CarryOut(hs, i) <= 5
      {
        CarryNext(hs, i);
        carry := carry + h[i];
        carry := carry / W;
      }
    }

    /** The words of h + pad + c, modulo 2^128. */
    method AddChain(c0: U64) returns (w0: U32, w1: U32, w2: U32, w3: U32)
      requires Shape() && c0 <= 5
      ensures w0 == AddWord(c0, h[..], pad[..], 0) && w1 == AddWord(c0, h[..], pad[..], 1)
      ensures w2 == AddWord(c0, h[..], pad[..], 2) && w3 == AddWord(c0, h[..], pad[..], 3)
    {
      hide AddOut;
      ghost var hs, ps := h[..], pad[..];
      var carry: U64 := c0;
      AddNone(c0, hs, ps);
      w0, w1, w2, w3 := 0, 0, 0, 0;
      for i := 0 to 4
        invariant carry == AddOut(c0, hs, ps, i) <= 5
        invariant i > 0 ==> w0 == AddWord(c0, hs, ps, 0)
        invariant i > 1 ==> w1 == AddWord(c0, hs, ps, 1)
        invariant i > 2 ==> w2 == AddWord(c0, hs, ps, 2)
        invariant i > 3 ==> w3 == AddWord(c0, hs, ps, 3)
      {
        AddNextOut(c0, hs, ps, i);
        carry := carry + h[i] + pad[i];
        var word: U32 := carry % W;
        if i == 0 { w0 := word; } else if i == 1 { w1 := word; } else if i == 2 { w2 := word; } else { w3 := word; }
        carry := carry / W;
      }
    }
  }
}
