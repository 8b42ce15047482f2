/**
 * The incremental interface of BLAKE2b in monocypher. The compression function and the parameter
 * block are given; what is proved is the buffering: the context is a function of the bytes absorbed
 * so far, so every way to split a message gives the digest of section 3.3 of RFC 7693.
 */
module Blake2bStream {
  import opened Bytes
  import opened Collections
  import opened Numbers
  import opened Poly1305

  const BLOCK: nat := 128

  /** The compression function F of section 3.2, on words, with the 128-bit offset as two words. */
  datatype Compression = Compression(
    initial: (nat, nat) -> seq<U64>,
    f: (seq<U64>, seq<U64>, U64, U64, bool) -> seq<U64>)
  {
    ghost predicate Valid()
    {
      (forall n, k :: |initial(n, k)| == 8) && (forall h, m, a, b, last :: |f(h, m, a, b, last)| == 8)
    }
  }

  // ---------------------------------------------------------------- blocks and words

  /** A block filled up with zeros. */
  function Padded(t: seq<Byte>): (b: seq<Byte>)
    requires |t| <= BLOCK
    ensures |b| == BLOCK
  {
    t + seq(BLOCK - |t|, i => 0)
  }

  lemma {:induction false} LittleBound(s: seq<Byte>)
    ensures Little(s) < Pow256(|s|)
  {
    if s != [] {
      LittleBound(s[1..]);
    }
  }

  lemma PowEight()
    ensures Pow256(8) == 0x1_0000_0000_0000_0000
  {
    assert Pow256(4) == 0x1_0000_0000;
  }

  /** load64_le */
  function Load64(s: seq<Byte>): (x: U64)
    requires |s| == 8
  {
    LittleBound(s);
    PowEight();
    Little(s)
  }

  function Words(b: seq<Byte>): (w: seq<U64>)
    requires |b| == BLOCK
    ensures |w| == 16
  {
    seq(16, i requires 0 <= i < 16 => Load64(b[8 * i..8 * i + 8]))
  }

  function Offset(n: nat): (r: (U64, U64))
  {
    (n % 0x1_0000_0000_0000_0000, n / 0x1_0000_0000_0000_0000 % 0x1_0000_0000_0000_0000)
  }

  // ---------------------------------------------------------------- the standard

  /** How many blocks come before the last one. */
  function Before(n: nat): (k: nat)
    ensures n == 0 ==> k == 0
    ensures n > 0 ==> BLOCK * k < n <= BLOCK * k + BLOCK
  {
    if n == 0 then 0 else (n - 1) / BLOCK
  }

  /** The hash after k blocks, none of them the last. */
  ghost function Chain(c: Compression, h: seq<U64>, data: seq<Byte>, k: nat): (r: seq<U64>)
    requires BLOCK * k <= |data|
  {
    if k == 0 then h
    else
      c.f(Chain(c, h, data, k - 1), Words(data[BLOCK * k - BLOCK..BLOCK * k]),
          Offset(BLOCK * k).0, Offset(BLOCK * k).1, false)
  }

  /** The final hash of data, whose last block is filled up with zeros and counted by its bytes. */
  ghost function Digest(c: Compression, h: seq<U64>, data: seq<Byte>): (r: seq<U64>)
  {
    var k := Before(|data|);
    c.f(Chain(c, h, data, k), Words(Padded(data[BLOCK * k..])), Offset(|data|).0, Offset(|data|).1, true)
  }

  lemma {:induction false} ChainPrefix(c: Compression, h: seq<U64>, data: seq<Byte>, more: seq<Byte>, k: nat)
    requires BLOCK * k <= |data|
    ensures Chain(c, h, data + more, k) == Chain(c, h, data, k)
  {
    if k > 0 {
      ChainPrefix(c, h, data, more, k - 1);
      assert (data + more)[BLOCK * k - BLOCK..BLOCK * k] == data[BLOCK * k - BLOCK..BLOCK * k];
    }
  }

  /** The i-th word of a block, from its eight bytes, the lowest first. */
  lemma WordsAre(b: seq<Byte>, i: nat)
    requires |b| == BLOCK && i < 16
    ensures Words(b)[i] == Word(b[8 * i], b[8 * i + 1], b[8 * i + 2], b[8 * i + 3])
      + 0x1_0000_0000 * Word(b[8 * i + 4], b[8 * i + 5], b[8 * i + 6], b[8 * i + 7])
  {
    var s := b[8 * i..8 * i + 8];
    assert forall k :: 0 <= k < 8 ==> s[k] == b[8 * i + k];
    hide Words, Little;
    LittleFour(s);
    LittleFour(s[4..]);
    assert Little(s[4..][4..]) == 0 by {
      assert s[4..][4..] == [];
      NoBytes();
    }
    WordIs(b, i);
  }

  lemma NoBytes()
    ensures Little([]) == 0
  {
  }

  lemma WordIs(b: seq<Byte>, i: nat)
    requires |b| == BLOCK && i < 16
    ensures Words(b)[i] == Little(b[8 * i..8 * i + 8])
  {
  }

  /** A message of at most one block is compressed once, as the last block, under its own length. */
  lemma DigestOne(c: Compression, h: seq<U64>, data: seq<Byte>)
    requires |data| <= 128
    ensures Digest(c, h, data) == c.f(h, Words(data + seq(128 - |data|, i => 0)), |data|, 0, true)
  {
    hide Words;
    assert Before(|data|) == 0 && data[0..] == data;
  }

  /** A longer one begins with full blocks, which are not the last and are counted as they come. */
  lemma DigestTwo(c: Compression, h: seq<U64>, data: seq<Byte>)
    requires 128 < |data| <= 256
    ensures Digest(c, h, data)
      == c.f(c.f(h, Words(data[..128]), 128, 0, false), Words(data[128..] + seq(256 - |data|, i => 0)), |data|, 0, true)
  {
    hide Words;
    assert Before(|data|) == 1;
    assert Chain(c, h, data, 0) == h;
    assert data[0..128] == data[..128];
  }

  // ---------------------------------------------------------------- writing into the buffer

  /** A byte put where the word was zero: the source's or and shift do not touch other bits, because
   * the word is below the byte's place. */
  function PutByte(w: U64, b: Byte, k: nat): (r: U64)
    requires k < 8 && w < Pow256(k)
  {
    ByteFits(w, b, k);
    w + Times(Pow256(k), b)
  }

  lemma ByteFits(w: nat, b: Byte, k: nat)
    requires k < 8 && w < Pow256(k)
    ensures w + Times(Pow256(k), b) < Pow256(k + 1) <= 0x1_0000_0000_0000_0000
  {
    PowEight();
    PowMonotone(k + 1, 8);
    assert Pow256(k) * b <= Pow256(k) * 255;
  }

  lemma {:induction false} PowMonotone(a: nat, b: nat)
    requires a <= b
    ensures Pow256(a) <= Pow256(b)
  {
    if a < b {
      PowMonotone(a, b - 1);
    }
  }

  lemma {:induction false} LittleZeroTail(s: seq<Byte>, k: nat)
    ensures Little(s + seq(k, i => 0)) == Little(s)
  {
    hide Times;
    LittleZeros(k);
    LittleAppend(s, seq(k, i => 0));
    TimesZero(Pow256(|s|));
  }

  lemma TimesZero(p: int)
    ensures Times(p, 0) == 0
  {
  }

  /** The word that holds the end of a padded block. */
  lemma WordAt(t: seq<Byte>)
    requires |t| < BLOCK
    ensures var j, k := |t| / 8, |t| % 8;
      Words(Padded(t))[j] == Little(t[8 * j..]) && Little(t[8 * j..]) < Pow256(k)
  {
    var j, k := |t| / 8, |t| % 8;
    var tail := t[8 * j..];
    assert Padded(t)[8 * j..8 * j + 8] == tail + seq<Byte>(8 - k, i => 0);
    LittleZeroTail(tail, 8 - k);
    LittleBound(tail);
  }

  /** Padding with one more byte changes one word, by that byte at its place. */
  lemma PaddedNext(t: seq<Byte>, b: Byte)
    requires |t| < BLOCK
    ensures var j, k := |t| / 8, |t| % 8;
      && Words(Padded(t))[j] < Pow256(k)
      && Words(Padded(t + [b])) == Words(Padded(t))[j := PutByte(Words(Padded(t))[j], b, k)]
  {
    hide Little, Times, Pow256;
    var j, k := |t| / 8, |t| % 8;
    var tail := t[8 * j..];
    WordAt(t);
    var x, y := Words(Padded(t)), Words(Padded(t + [b]));
    assert Padded(t + [b])[8 * j..8 * j + 8] == (tail + [b]) + seq<Byte>(7 - k, i => 0);
    LittleZeroTail(tail + [b], 7 - k);
    LittleAppend(tail, [b]);
    OneByte(b);
    assert y[j] == PutByte(x[j], b, k);
    forall i | 0 <= i < 16 && i != j
      ensures y[i] == x[i]
    {
      assert Padded(t + [b])[8 * i..8 * i + 8] == Padded(t)[8 * i..8 * i + 8];
    }
  }

  lemma OneByte(b: Byte)
    ensures Little([b]) == b
  {
  }

  /** Padding with eight more bytes at a word boundary loads one word. */
  lemma PaddedWord(t: seq<Byte>, w: seq<Byte>)
    requires |t| % 8 == 0 && |w| == 8 && |t| + 8 <= BLOCK
    ensures Words(Padded(t + w)) == Words(Padded(t))[|t| / 8 := Load64(w)]
  {
    hide Little;
    var x, y, j := Words(Padded(t)), Words(Padded(t + w)), |t| / 8;
    forall i | 0 <= i < 16
      ensures y[i] == if i == j then Load64(w) else x[i]
    {
      if i == j {
        assert Padded(t + w)[8 * i..8 * i + 8] == w;
      } else {
        assert Padded(t + w)[8 * i..8 * i + 8] == Padded(t)[8 * i..8 * i + 8];
      }
    }
  }

  lemma PaddedNone()
    ensures Words(Padded([])) == seq(16, i => 0 as U64)
  {
    forall i | 0 <= i < 16
      ensures Words(Padded([]))[i] == 0
    {
      assert Padded([])[8 * i..8 * i + 8] == seq<Byte>(8, k => 0);
      LittleZeros(8);
    }
  }

  lemma PaddedFull(b: seq<Byte>)
    requires |b| == BLOCK
    ensures Padded(b) == b
  {
  }

  // ---------------------------------------------------------------- the context

  lemma WordUnique(x: nat, q: nat, r: nat)
    requires r < 0x1_0000_0000_0000_0000 && x == q * 0x1_0000_0000_0000_0000 + r
    ensures x / 0x1_0000_0000_0000_0000 == q && x % 0x1_0000_0000_0000_0000 == r
  {
  }

  /** The carry from the low word of the offset to the high one. */
  lemma OffsetStep(n: nat, y: nat)
    requires y <= BLOCK
    ensures var x0 := (Offset(n).0 + y) % 0x1_0000_0000_0000_0000;
      var x1 := if x0 < y then (Offset(n).1 + 1) % 0x1_0000_0000_0000_0000 else Offset(n).1;
      Offset(n + y) == (x0, x1)
  {
    var w := 0x1_0000_0000_0000_0000;
    var q, r := n / w, n % w;
    assert n == q * w + r;
    if r + y < w {
      WordUnique(n + y, q, r + y);
      WordUnique(r + y, 0, r + y);
    } else {
      WordUnique(n + y, q + 1, r + y - w);
      WordUnique(r + y, 1, r + y - w);
      NextWord(q);
    }
  }

  lemma NextWord(q: nat)
    ensures (q + 1) % 0x1_0000_0000_0000_0000 == (q % 0x1_0000_0000_0000_0000 + 1) % 0x1_0000_0000_0000_0000
  {
  }

  lemma ChainNext(c: Compression, h: seq<U64>, data: seq<Byte>, k: nat)
    requires BLOCK * k + BLOCK <= |data|
    ensures Chain(c, h, data, k + 1) ==
      c.f(Chain(c, h, data, k), Words(data[BLOCK * k..BLOCK * k + BLOCK]), Offset(BLOCK * k + BLOCK).0, Offset(BLOCK * k + BLOCK).1, false)
  {
    hide Words, Offset;
  }

  class Blake2bCtx {
    const c: Compression
    var hash: seq<U64>
    var offset0: U64
    var offset1: U64
    const input: array<U64>
    var inputIdx: nat
    var hashSize: nat
    /** The initial hash, and the bytes absorbed since initialisation; a key counts as its block. */
    ghost var start: seq<U64>
    ghost var absorbed: seq<Byte>

    /** k blocks have been compressed and the tail is in the buffer. */
    ghost predicate Holding(k: nat, tail: seq<Byte>)
      reads this, input
    {
      && c.Valid() && input.Length == 16 && |hash| == 8
      && |tail| <= BLOCK && |absorbed| == BLOCK * k + |tail| && absorbed[BLOCK * k..] == tail
      && hash == Chain(c, start, absorbed, k) && (offset0, offset1) == Offset(BLOCK * k)
      && input[..] == Words(Padded(tail)) && inputIdx == |tail|
    }

    ghost function Tail(): (t: seq<Byte>)
      reads this
    {
      if BLOCK * Before(|absorbed|) <= |absorbed| then absorbed[BLOCK * Before(|absorbed|)..] else []
    }

    /** The whole context is a function of the bytes absorbed. */
    ghost predicate Valid()
      reads this, input
    {
      Holding(Before(|absorbed|), Tail())
    }

    constructor (c: Compression)
      requires c.Valid()
      ensures this.c == c && input.Length == 16 && fresh(input)
    {
      this.c := c;
      hash := seq(8, i => 0);
      offset0, offset1, inputIdx, hashSize := 0, 0, 0, 0;
      input := new U64[16];
      start, absorbed := [], [];
    }

    lemma Settled(k: nat, tail: seq<Byte>)
      requires Holding(k, tail) && (tail != [] || absorbed == [])
      ensures Valid()
    {
      assert Before(|absorbed|) == k;
    }

    /** ZERO of the buffer */
    method ZeroInput()
      requires input.Length == 16
      modifies input
      ensures input[..] == Words(Padded([]))
    {
      PaddedNone();
      for i := 0 to 16
        invariant forall j :: 0 <= j < i ==> input[j] == 0
      {
        input[i] := 0;
      }
    }

    /** load64_le_buf into the buffer from word at on. */
    method LoadWords(at: nat, bytes: seq<Byte>)
      requires input.Length == 16 && |bytes| % 8 == 0 && at + |bytes| / 8 <= 16
      modifies input
      ensures forall j :: 0 <= j < 16 ==>
        input[j] == if at <= j < at + |bytes| / 8 then Load64(bytes[8 * (j - at)..8 * (j - at) + 8]) else old(input[j])
    {
      hide Load64;
      for i := 0 to |bytes| / 8
        invariant forall j :: 0 <= j < 16 ==>
          input[j] == if at <= j < at + i then Load64(bytes[8 * (j - at)..8 * (j - at) + 8]) else old(input[j])
      {
        input[at + i] := Load64(bytes[8 * i..8 * i + 8]);
      }
    }

    /** crypto_blake2b_keyed_init */
    method Init(size: nat, key: seq<Byte>)
      requires c.Valid() && input.Length == 16 && |key| <= 64
      modifies this, input
      ensures Valid() && start == c.initial(size, |key|) && hashSize == size
      ensures absorbed == if key == [] then [] else Padded(key)
    {
      hide Words, Padded;
      hash := c.initial(size, |key|);
      offset0, offset1, hashSize, inputIdx := 0, 0, size, 0;
      start, absorbed := hash, [];
      ZeroInput();
      if |key| > 0 {
        var block := Padded(key);
        LoadWords(0, block);
        LoadedBlock(block, input[..]);
        inputIdx := BLOCK;
        absorbed := block;
        Settled(0, block);
      } else {
        Settled(0, []);
      }
    }

    lemma LoadedBlock(block: seq<Byte>, words: seq<U64>)
      requires |block| == BLOCK && |words| == 16
      requires forall j :: 0 <= j < 16 ==> words[j] == Load64(block[8 * j..8 * j + 8])
      ensures words == Words(Padded(block))
    {
      hide Load64;
      PaddedFull(block);
    }

    /** blake2b_compress: count the bytes in the buffer, then mix it into the hash. */
    method Compress(last: bool)
      requires c.Valid() && input.Length == 16 && inputIdx <= BLOCK
      modifies this`hash, this`offset0, this`offset1
      ensures |hash| == 8
      ensures forall n: nat :: (old(offset0), old(offset1)) == Offset(n) ==> (offset0, offset1) == Offset(n + inputIdx)
      ensures hash == c.f(old(hash), input[..], offset0, offset1, last)
    {
      ghost var before0, before1 := offset0, offset1;
      offset0 := (offset0 + inputIdx) % 0x1_0000_0000_0000_0000;
      if offset0 < inputIdx {
        offset1 := (offset1 + 1) % 0x1_0000_0000_0000_0000;
      }
      forall n: nat | (before0, before1) == Offset(n)
        ensures (offset0, offset1) == Offset(n + inputIdx)
      {
        OffsetStep(n, inputIdx);
      }
      hash := c.f(hash, input[..], offset0, offset1, last);
    }

    /** Compress a full buffer and start the next block. */
    method FlushFull(ghost k: nat, ghost tail: seq<Byte>)
      requires Holding(k, tail) && |tail| == BLOCK
      modifies this`hash, this`offset0, this`offset1
      ensures |hash| == 8 && hash == Chain(c, start, absorbed, k + 1) && (offset0, offset1) == Offset(BLOCK * (k + 1))
    {
      hide Words, Offset, Chain;
      ChainNext(c, start, absorbed, k);
      PaddedFull(tail);
      Compress(false);
      assert absorbed[BLOCK * k..BLOCK * k + BLOCK] == tail;
      assert (old(offset0), old(offset1)) == Offset(BLOCK * k);
    }

    /** Bytes up to the end of the block at most, one at a time. */
    method FillBytes(bytes: seq<Byte>, ghost k: nat, ghost tail: seq<Byte>)
      requires Holding(k, tail) && |tail| + |bytes| <= BLOCK
      modifies this`inputIdx, this`absorbed, input
      ensures Holding(k, tail + bytes) && absorbed == old(absorbed) + bytes
    {
      hide Words, Padded, Chain, Offset, PutByte, Pow256;
      assert tail + bytes[..0] == tail;
      for i := 0 to |bytes|
        invariant input[..] == Words(Padded(tail + bytes[..i])) && inputIdx == |tail| + i && absorbed == old(absorbed)
        invariant hash == old(hash) && offset0 == old(offset0) && offset1 == old(offset1)
      {
        var word, byte := inputIdx / 8, inputIdx % 8;
        PaddedNext(tail + bytes[..i], bytes[i]);
        ghost var before := input[..];
        input[word] := PutByte(input[word], bytes[i], byte);
        assert input[..] == before[word := PutByte(before[word], bytes[i], byte)];
        assert (tail + bytes[..i]) + [bytes[i]] == tail + bytes[..i + 1];
        inputIdx := inputIdx + 1;
      }
      assert bytes[..|bytes|] == bytes;
      Absorb(bytes, k, tail);
    }

    ghost method Absorb(bytes: seq<Byte>, k: nat, tail: seq<Byte>)
      requires c.Valid() && input.Length == 16 && |hash| == 8 && |tail| + |bytes| <= BLOCK
      requires |absorbed| == BLOCK * k + |tail| && absorbed[BLOCK * k..] == tail
      requires hash == Chain(c, start, absorbed, k) && (offset0, offset1) == Offset(BLOCK * k)
      requires input[..] == Words(Padded(tail + bytes)) && inputIdx == |tail| + |bytes|
      modifies this`absorbed
      ensures Holding(k, tail + bytes) && absorbed == old(absorbed) + bytes
    {
      hide Words, Padded, Chain, Offset;
      ChainPrefix(c, start, absorbed, bytes, k);
      absorbed := absorbed + bytes;
      assert absorbed[BLOCK * k..] == tail + bytes;
    }

    /** Whole words at a word boundary. The source loads them from word at of the buffer on; unless
     * there are none, that is where the buffered bytes end. */
    method FillWords(at: nat, bytes: seq<Byte>, ghost k: nat, ghost tail: seq<Byte>)
      requires Holding(k, tail) && |bytes| % 8 == 0 && |tail| + |bytes| <= BLOCK
      requires at + |bytes| / 8 <= 16 && (bytes != [] ==> 8 * at == |tail|)
      modifies this`inputIdx, this`absorbed, input
      ensures Holding(k, tail + bytes) && absorbed == old(absorbed) + bytes
    {
      hide Words, Padded, Chain, Offset, Load64;
      ghost var before := input[..];
      LoadWords(at, bytes);
      if bytes == [] {
        assert input[..] == before && tail + bytes == tail;
      } else {
        LoadedWords(tail, bytes, |bytes| / 8, before, input[..]);
      }
      inputIdx := inputIdx + |bytes|;
      Absorb(bytes, k, tail);
    }

    lemma {:induction false} LoadedWords(tail: seq<Byte>, bytes: seq<Byte>, n: nat, before: seq<U64>, after: seq<U64>)
      requires |tail| % 8 == 0 && |bytes| == 8 * n && |tail| + |bytes| <= BLOCK && |before| == |after| == 16
      requires before == Words(Padded(tail))
      requires forall j :: 0 <= j < 16 ==>
        after[j] == if |tail| / 8 <= j < |tail| / 8 + n then Load64(bytes[8 * (j - |tail| / 8)..8 * (j - |tail| / 8) + 8]) else before[j]
      ensures after == Words(Padded(tail + bytes))
      decreases n
    {
      hide Words, Padded, Load64;
      if n == 0 {
        assert tail + bytes == tail;
      } else {
        var init, last := bytes[..8 * (n - 1)], bytes[8 * (n - 1)..];
        var mid := after[|tail| / 8 + n - 1 := before[|tail| / 8 + n - 1]];
        forall j | 0 <= j < 16
          ensures mid[j] == if |tail| / 8 <= j < |tail| / 8 + (n - 1)
            then Load64(init[8 * (j - |tail| / 8)..8 * (j - |tail| / 8) + 8]) else before[j]
        {
          if |tail| / 8 <= j < |tail| / 8 + (n - 1) {
            assert init[8 * (j - |tail| / 8)..8 * (j - |tail| / 8) + 8] == bytes[8 * (j - |tail| / 8)..8 * (j - |tail| / 8) + 8];
          }
        }
        LoadedWords(tail, init, n - 1, before, mid);
        PaddedWord(tail + init, last);
        assert (tail + init) + last == tail + bytes;
        assert last == bytes[8 * (n - 1)..8 * (n - 1) + 8];
      }
    }

    /** The blocks of a message, each loaded over the one before it once that is compressed. */
    method FillBlocks(message: seq<Byte>, nb: nat, ghost k0: nat, ghost tail0: seq<Byte>) returns (ghost k: nat, ghost tail: seq<Byte>)
      requires Holding(k0, tail0) && BLOCK * nb <= |message| && (nb > 0 ==> |tail0| == 0 || |tail0| == BLOCK)
      modifies this`hash, this`offset0, this`offset1, this`inputIdx, this`absorbed, input
      ensures Holding(k, tail) && absorbed == old(absorbed) + message[..BLOCK * nb]
      ensures nb > 0 ==> |tail| == BLOCK
      ensures nb == 0 ==> k == k0 && tail == tail0
    {
      hide Words, Padded, Chain, Offset;
      k, tail := k0, tail0;
      assert message[..0] == [] && absorbed + [] == absorbed;
      for i := 0 to nb
        invariant Holding(k, tail) && absorbed == old(absorbed) + message[..BLOCK * i]
        invariant if i == 0 then k == k0 && tail == tail0 else |tail| == BLOCK
      {
        ghost var block := message[BLOCK * i..BLOCK * i + BLOCK];
        if inputIdx == BLOCK {
          FlushFull(k, tail);
          k := k + 1;
        }
        LoadWords(0, message[BLOCK * i..BLOCK * i + BLOCK]);
        LoadedBlock(block, input[..]);
        inputIdx := BLOCK;
        ChainPrefix(c, start, absorbed, block, k);
        absorbed := absorbed + block;
        tail := block;
        assert absorbed[BLOCK * k..] == block;
        assert message[..BLOCK * (i + 1)] == message[..BLOCK * i] + block;
      }
    }

    /** crypto_blake2b_update */
    method Update(message: seq<Byte>)
      requires Valid()
      modifies this`hash, this`offset0, this`offset1, this`inputIdx, this`absorbed, input
      ensures Valid() && absorbed == old(absorbed) + message
    {
      hide Holding;
      if |message| == 0 {
        assert absorbed + message == absorbed;
        return;
      }
      ghost var k, tail := Before(|absorbed|), Tail();
      IdxIs(k, tail);
      var nbBytes := AlignWord(message, k, tail);
      tail := tail + message[..nbBytes];
      IdxIs(k, tail);
      var rest := message[nbBytes..];
      var nbWords := AlignBlock(rest, k, tail);
      tail := tail + rest[..8 * nbWords];
      var last := rest[8 * nbWords..];
      assert message == message[..nbBytes] + (rest[..8 * nbWords] + last);
      Associates3(old(absorbed), message[..nbBytes], rest[..8 * nbWords], last);
      IdxIs(k, tail);
      k, tail := UpdateBlocks(last, k, tail);
      Settled(k, tail);
    }

    /** Align with word boundaries. */
    method AlignWord(message: seq<Byte>, ghost k: nat, ghost tail: seq<Byte>) returns (nbBytes: nat)
      requires Holding(k, tail)
      modifies this`inputIdx, this`absorbed, input
      ensures nbBytes <= |message| && Holding(k, tail + message[..nbBytes]) && absorbed == old(absorbed) + message[..nbBytes]
      ensures (|tail| + nbBytes) % 8 == 0 || nbBytes == |message|
    {
      hide Holding;
      IdxIs(k, tail);
      nbBytes := 0;
      if inputIdx % 8 != 0 {
        var gap := Gap(inputIdx, 8);
        nbBytes := if gap < |message| then gap else |message|;
        FillBytes(message[..nbBytes], k, tail);
      } else {
        assert absorbed + message[..0] == absorbed && tail + message[..0] == tail;
      }
    }

    /** Align with block boundaries. */
    method AlignBlock(rest: seq<Byte>, ghost k: nat, ghost tail: seq<Byte>) returns (nbWords: nat)
      requires Holding(k, tail) && (|tail| % 8 == 0 || rest == [])
      modifies this`inputIdx, this`absorbed, input
      ensures 8 * nbWords <= |rest| && Holding(k, tail + rest[..8 * nbWords]) && absorbed == old(absorbed) + rest[..8 * nbWords]
      ensures (|tail| + 8 * nbWords) % BLOCK == 0 || (|rest| - 8 * nbWords < 8 && |tail| + |rest| <= BLOCK)
    {
      hide Holding, WordsToBlock;
      IdxIs(k, tail);
      nbWords := 0;
      if inputIdx % 128 != 0 {
        nbWords := WordsToBlock(inputIdx, |rest|);
        GapFacts(inputIdx, |rest|);
        FillWords(inputIdx / 8, rest[..8 * nbWords], k, tail);
      } else {
        assert absorbed + rest[..0] == absorbed && tail + rest[..0] == tail;
      }
    }

    lemma IdxIs(k: nat, tail: seq<Byte>)
      requires Holding(k, tail)
      ensures inputIdx == |tail| <= BLOCK && |absorbed| == BLOCK * k + |tail|
    {
    }

    /** The rest of crypto_blake2b_update: whole blocks, then what is left. Either the buffer is at a
     * block boundary, or what is left does not fill a word. */
    method UpdateBlocks(message: seq<Byte>, ghost k0: nat, ghost tail0: seq<Byte>) returns (ghost k: nat, ghost tail: seq<Byte>)
      requires Holding(k0, tail0) && (|tail0| % BLOCK == 0 || |message| < 8)
      requires |tail0| % BLOCK != 0 ==> |tail0| + |message| <= BLOCK
      requires tail0 == [] ==> absorbed == [] && message != []
      modifies this`hash, this`offset0, this`offset1, this`inputIdx, this`absorbed, input
      ensures Holding(k, tail) && tail != [] && absorbed == old(absorbed) + message
    {
      hide Holding, WholeBlocks;
      IdxIs(k0, tail0);
      AtBoundary(|tail0|);
      var nb := WholeBlocks(|message|);
      k, tail := FillBlocks(message, nb, k0, tail0);
      IdxIs(k, tail);
      var rest := message[BLOCK * nb..];
      assert message == message[..BLOCK * nb] + rest;
      Associates(old(absorbed), message[..BLOCK * nb], rest);
      if |rest| != 0 {
        k, tail := UpdateRest(rest, k, tail);
      } else {
        assert absorbed + rest == absorbed;
      }
    }

    /** Less than a block: the words of it, then its last bytes. */
    method UpdateRest(rest: seq<Byte>, ghost k0: nat, ghost tail0: seq<Byte>) returns (ghost k: nat, ghost tail: seq<Byte>)
      requires Holding(k0, tail0) && 0 < |rest| < BLOCK && (|tail0| % BLOCK == 0 || (|rest| < 8 && |tail0| + |rest| <= BLOCK))
      modifies this`hash, this`offset0, this`offset1, this`inputIdx, this`absorbed, input
      ensures Holding(k, tail) && tail != [] && absorbed == old(absorbed) + rest
    {
      hide Holding;
      k, tail := k0, tail0;
      IdxIs(k, tail);
      if inputIdx == BLOCK {
        k, tail := StartBlock(k, tail);
      }
      if inputIdx == 0 {
        ZeroStart(k, tail);
      }
      IdxIs(k, tail);
      var nbWords := |rest| / 8;
      FillWords(0, rest[..8 * nbWords], k, tail);
      tail := tail + rest[..8 * nbWords];
      ghost var after := rest[8 * nbWords..];
      assert rest == rest[..8 * nbWords] + after;
      Associates(old(absorbed), rest[..8 * nbWords], after);
      FillBytes(rest[8 * nbWords..], k, tail);
      tail := tail + after;
    }

    method StartBlock(ghost k0: nat, ghost tail0: seq<Byte>) returns (ghost k: nat, ghost tail: seq<Byte>)
      requires Holding(k0, tail0) && |tail0| == BLOCK
      modifies this`hash, this`offset0, this`offset1, this`inputIdx, input
      ensures Holding(k, tail) && tail == []
    {
      hide Words, Padded, Chain, Offset;
      FlushFull(k0, tail0);
      inputIdx := 0;
      ZeroInput();
      k, tail := k0 + 1, [];
      assert absorbed[BLOCK * k..] == [];
    }

    method ZeroStart(ghost k: nat, ghost tail: seq<Byte>)
      requires Holding(k, tail) && tail == []
      modifies input
      ensures Holding(k, tail)
    {
      hide Words, Padded, Chain, Offset;
      ZeroInput();
    }

    /** crypto_blake2b_final, up to the wipe: the first hashSize bytes of the final hash. */
    method Final() returns (digest: seq<Byte>)
      requires Valid()
      modifies this`hash, this`offset0, this`offset1
      ensures |digest| == (if hashSize < 64 then hashSize else 64)
      ensures var d := Digest(c, start, absorbed); |d| == 8 && forall i: nat :: i < |digest| ==> digest[i] == HashByte(d, i)
    {
      hide Words, Padded, Chain, Offset, HashByte;
      ghost var d, k := Digest(c, start, absorbed), Before(|absorbed|);
      assert (offset0, offset1) == Offset(BLOCK * k);
      Compress(true);
      assert hash == d;
      var size := if hashSize < 64 then hashSize else 64;
      var nbWords := size / 8;
      digest := [];
      for i := 0 to nbWords
        invariant |digest| == 8 * i && hash == d && forall j: nat :: j < |digest| ==> digest[j] == HashByte(d, j)
      {
        StoredBytes(d, i);
        digest := digest + Store64(hash[i]);
      }
      for i := 8 * nbWords to size
        invariant |digest| == i && hash == d && forall j: nat :: j < |digest| ==> digest[j] == HashByte(d, j)
      {
        digest := digest + [HashByte(hash, i)];
      }
    }
  }

  /** How many whole blocks there are in n bytes. */
  function WholeBlocks(n: nat): (k: nat)
    ensures 128 * k <= n < 128 * k + 128
  {
    n / 128
  }

  lemma AtBoundary(n: nat)
    requires n <= 128
    ensures n % BLOCK == 0 <==> n == 0 || n == 128
  {
  }

  /** gap: how far x is from the next multiple. */
  function Gap(x: nat, multiple: nat): nat
    requires multiple > 0
  {
    (multiple - x % multiple) % multiple
  }

  /** How many words of n bytes go in before the next block boundary. */
  function WordsToBlock(idx: nat, n: nat): nat
  {
    (if Gap(idx, 128) < n then Gap(idx, 128) else n) / 8
  }

  /** Either the words fill the block, or less than a word is left over and stays inside it. */
  lemma GapFacts(idx: nat, n: nat)
    requires idx <= BLOCK && idx % 128 != 0 && (idx % 8 == 0 || n == 0)
    ensures var words := WordsToBlock(idx, n);
      && 8 * words <= n && idx + 8 * words <= BLOCK && idx / 8 + words <= 16 && (words > 0 ==> 8 * (idx / 8) == idx)
      && (idx + 8 * words == BLOCK || (n - 8 * words < 8 && idx + n <= BLOCK))
  {
    hide Gap;
    AtBoundary(idx);
    GapInside(idx);
    var words := WordsToBlock(idx, n);
    if 128 - idx < n {
      Eighths(idx);
      assert words == 16 - idx / 8;
    } else {
      Halfway(n);
      Eighths(idx);
    }
  }

  lemma GapInside(idx: nat)
    requires 0 < idx < 128
    ensures Gap(idx, 128) == 128 - idx
  {
  }

  /** Full words up to the end of a block. */
  lemma Eighths(idx: nat)
    requires idx < 128
    ensures idx % 8 == 0 ==> idx == 8 * (idx / 8) && (128 - idx) / 8 == 16 - idx / 8
    ensures idx / 8 <= 15
  {
    var q := idx / 8;
    assert idx % 8 == 0 ==> 128 - idx == 8 * (16 - q);
  }

  lemma Halfway(n: nat)
    ensures 8 * (n / 8) <= n < 8 * (n / 8) + 8
  {
  }

  lemma Associates3<T>(a: seq<T>, b: seq<T>, c: seq<T>, d: seq<T>)
    ensures ((a + b) + c) + d == a + (b + (c + d))
  {
  }

  /** Byte i of eight little-endian words. */
  function HashByte(h: seq<U64>, i: nat): (b: Byte)
    requires i / 8 < |h|
  {
    h[i / 8] / Pow256(i % 8) % 256
  }

  /** store64_le */
  function Store64(x: U64): (s: seq<Byte>)
    ensures |s| == 8
  {
    seq(8, k requires 0 <= k < 8 => x / Pow256(k) % 256)
  }

  lemma StoredBytes(h: seq<U64>, i: nat)
    requires i < |h|
    ensures forall k: nat :: k < 8 ==> Store64(h[i])[k] == HashByte(h, 8 * i + k)
  {
    hide Pow256;
    forall k: nat | k < 8
      ensures Store64(h[i])[k] == HashByte(h, 8 * i + k)
    {
      assert (8 * i + k) / 8 == i && (8 * i + k) % 8 == k;
    }
  }
}
