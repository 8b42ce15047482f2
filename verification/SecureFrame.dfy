/**
 * SecureFrameCipher: sealed frames under a counter, and a 2048-bit ring bitmap that stands for
 * the set of all counters accepted since the keys were installed. The AEAD and the key derivation
 * are parameters; only what they are used for is modelled.
 */
module SecureFrame {
  import opened Bytes
  import opened Collections
  import opened Numbers

  type U64 = x: int | 0 <= x < 0x1_0000_0000_0000_0000

  const COUNTER_MAX: U64 := 0xffff_ffff_ffff_ffff
  const REPLAY_WINDOW: nat := 2048
  const COUNTER_SIZE: nat := 8
  const MAC_SIZE: nat := 16

  // ---------------------------------------------------------------- bits of a byte

  function Mask(k: nat): (m: bv8)
    requires k < 8
  {
    if k == 0 then 1 else if k == 1 then 2 else if k == 2 then 4 else if k == 3 then 8
    else if k == 4 then 16 else if k == 5 then 32 else if k == 6 then 64 else 128
  }

  predicate TestBit(x: bv8, k: nat)
    requires k < 8
  {
    x & Mask(k) != 0
  }

  function SetBit(x: bv8, k: nat): (r: bv8)
    requires k < 8
  {
    x | Mask(k)
  }

  function ClearBit(x: bv8, k: nat): (r: bv8)
    requires k < 8
  {
    x & !Mask(k)
  }

  lemma SetBitIs(x: bv8, k: nat, j: nat)
    requires k < 8 && j < 8
    ensures TestBit(SetBit(x, k), j) <==> j == k || TestBit(x, j)
  {
  }

  lemma ClearBitIs(x: bv8, k: nat, j: nat)
    requires k < 8 && j < 8
    ensures TestBit(ClearBit(x, k), j) <==> j != k && TestBit(x, j)
  {
  }

  // ---------------------------------------------------------------- the window

  /** What a receiver knows: has it accepted anything, the largest counter, and all of them. */
  datatype Window = Window(started: bool, max: U64, accepted: set<U64>)

  /** Above the maximum, or within 2048 of it and not accepted before. */
  ghost predicate Accepts(w: Window, ctr: U64)
  {
    !w.started || ctr > w.max || (w.max - ctr < REPLAY_WINDOW && ctr !in w.accepted)
  }

  ghost function Accept(w: Window, ctr: U64): (r: Window)
  {
    if !Accepts(w, ctr) then w
    else Window(true, if w.started && ctr <= w.max then w.max else ctr, w.accepted + {ctr})
  }

  ghost predicate Coherent(w: Window)
  {
    if w.started then w.max in w.accepted && forall c :: c in w.accepted ==> c <= w.max
    else w.accepted == {}
  }

  ghost function EmptyWindow(): Window
  {
    Window(false, 0, {})
  }

  /** A ring of 2048 bits; counter c has the bit at c modulo 2048. */
  predicate RingBit(ring: seq<bv8>, c: nat)
    requires |ring| == 256
  {
    TestBit(ring[c % 2048 / 8], c % 2048 % 8)
  }

  /** Inside the window below max the ring says which counters have been accepted. */
  ghost predicate RingHolds(ring: seq<bv8>, max: int, s: set<U64>)
  {
    |ring| == 256 && forall c: nat :: max - 2048 < c <= max ==> (RingBit(ring, c) <==> c in s)
  }

  lemma RingLength(ring: seq<bv8>, max: int, s: set<U64>)
    requires RingHolds(ring, max, s)
    ensures |ring| == 256
  {
  }

  lemma InRing(ring: seq<bv8>, max: int, s: set<U64>, c: nat)
    requires RingHolds(ring, max, s) && max - 2048 < c <= max
    ensures |ring| == 256 && (TestBit(ring[c % 2048 / 8], c % 2048 % 8) <==> c in s)
  {
    hide TestBit;
    assert RingBit(ring, c) <==> c in s;
  }

  lemma EmptyRing(ring: seq<bv8>, max: U64, s: set<U64>)
    requires |ring| == 256 && forall i :: 0 <= i < 256 ==> ring[i] == 0
    requires forall c :: c in s ==> c <= max - 2048
    ensures RingHolds(ring, max, s)
  {
    forall c: nat
      ensures !RingBit(ring, c)
    {
      assert ring[c % 2048 / 8] == 0;
    }
  }

  /** Setting the bit of a counter in the window adds it to the set. */
  lemma RingAdd(ring: seq<bv8>, max: int, s: set<U64>, c: U64)
    requires RingHolds(ring, max, s) && max - 2048 < c <= max
    ensures RingHolds(ring[c % 2048 / 8 := SetBit(ring[c % 2048 / 8], c % 2048 % 8)], max, s + {c})
  {
    hide TestBit, SetBit;
    var next := ring[c % 2048 / 8 := SetBit(ring[c % 2048 / 8], c % 2048 % 8)];
    forall k: nat | max - 2048 < k <= max
      ensures RingBit(next, k) <==> k in s + {c}
    {
      InRing(ring, max, s, k);
      var p := k % 2048;
      if p / 8 == c % 2048 / 8 {
        SetBitIs(ring[p / 8], c % 2048 % 8, p % 8);
      }
      SamePlace(k, c, max);
    }
  }

  /** Two counters of one window share a bit only if they are equal. */
  lemma SamePlace(k: nat, c: nat, max: int)
    requires max - 2048 < k <= max && max - 2048 < c <= max
    ensures k % 2048 == c % 2048 ==> k == c
    ensures k % 2048 == c % 2048 <==> (k % 2048 / 8 == c % 2048 / 8 && k % 2048 % 8 == c % 2048 % 8)
  {
  }

  /** Clearing the bit of the next counter moves the window up by one. */
  lemma RingNext(ring: seq<bv8>, max: nat, s: set<U64>)
    requires RingHolds(ring, max, s) && forall c :: c in s ==> c <= max
    ensures var pos := (max + 1) % 2048; RingHolds(ring[pos / 8 := ClearBit(ring[pos / 8], pos % 8)], max + 1, s)
  {
    hide TestBit, ClearBit;
    var pos := (max + 1) % 2048;
    var next := ring[pos / 8 := ClearBit(ring[pos / 8], pos % 8)];
    forall k: nat | max + 1 - 2048 < k <= max + 1
      ensures RingBit(next, k) <==> k in s
    {
      var p := k % 2048;
      if p / 8 == pos / 8 {
        ClearBitIs(ring[p / 8], pos % 8, p % 8);
      }
      if k <= max {
        InRing(ring, max, s, k);
      }
      SamePlace(k, max + 1, max + 1);
    }
  }

  /** The window after a run of attempts. */
  ghost function AcceptAll(w: Window, ctrs: seq<U64>): (r: Window)
  {
    if ctrs == [] then w else Accept(AcceptAll(w, ctrs[..|ctrs| - 1]), ctrs[|ctrs| - 1])
  }

  ghost predicate AcceptedAt(w: Window, ctrs: seq<U64>, i: nat)
    requires i < |ctrs|
  {
    Accepts(AcceptAll(w, ctrs[..i]), ctrs[i])
  }

  lemma {:induction false} AcceptAllGrows(w: Window, ctrs: seq<U64>, i: nat)
    requires Coherent(w) && i < |ctrs|
    ensures Coherent(AcceptAll(w, ctrs))
    ensures AcceptedAt(w, ctrs, i) ==> ctrs[i] in AcceptAll(w, ctrs).accepted && AcceptAll(w, ctrs).started
  {
    var last := |ctrs| - 1;
    if last > 0 {
      AcceptAllGrows(w, ctrs[..last], if i < last then i else 0);
    } else {
      assert ctrs[..0] == [];
    }
    if i < last {
      assert ctrs[..last][..i] == ctrs[..i];
    }
  }

  /** Over any run no counter is accepted twice. */
  lemma NoReplay(ctrs: seq<U64>, i: nat, j: nat)
    requires i < j < |ctrs|
    requires AcceptedAt(EmptyWindow(), ctrs, i) && AcceptedAt(EmptyWindow(), ctrs, j)
    ensures ctrs[i] != ctrs[j]
  {
    assert ctrs[..j][..i] == ctrs[..i];
    AcceptAllGrows(EmptyWindow(), ctrs[..j], i);
  }

  // ---------------------------------------------------------------- frames

  /** Key derivation and the AEAD, as the cipher uses them. */
  datatype Primitives = Primitives(
    derive: (seq<Byte>, string) -> seq<Byte>,
    lock: (seq<Byte>, seq<Byte>, seq<Byte>, seq<Byte>) -> seq<Byte>,
    unlock: (seq<Byte>, seq<Byte>, seq<Byte>, seq<Byte>) -> Option<seq<Byte>>)
  {
    ghost predicate Valid()
    {
      && (forall m, d :: |derive(m, d)| == 32)
      && (forall k, n, a, p :: |lock(k, n, a, p)| == |p| + MAC_SIZE)
      && (forall k, n, a, p :: unlock(k, n, a, lock(k, n, a, p)) == Some(p))
    }
  }

  lemma CounterRoundTrip(x: U64)
    ensures Value(Number(x, 8)) == x
  {
    hide Number, Value;
    Widths();
    ValueOfNumber(x, 8);
  }

  /** readU64BE of the first eight bytes of a frame. */
  function Counter(frame: seq<Byte>): (c: U64)
    requires |frame| >= COUNTER_SIZE
  {
    NumberOfValue(frame[..8]);
    Widths();
    Value(frame[..8])
  }

  function Nonce(seed: seq<Byte>, ctr: U64): (n: seq<Byte>)
    ensures |n| == 8 + |seed|
  {
    Number(ctr, 8) + seed
  }

  /** Different counters give different nonces. */
  lemma NonceInjective(seed: seq<Byte>, a: U64, b: U64)
    requires Nonce(seed, a) == Nonce(seed, b)
    ensures a == b
  {
    assert Number(a, 8) == Nonce(seed, a)[..8] && Number(b, 8) == Nonce(seed, b)[..8];
    CounterRoundTrip(a);
    CounterRoundTrip(b);
  }

  function Seal(ps: Primitives, key: seq<Byte>, seed: seq<Byte>, ctr: U64, ad: seq<Byte>, plain: seq<Byte>): (f: seq<Byte>)
  {
    Number(ctr, 8) + ps.lock(key, Nonce(seed, ctr), ad, plain)
  }

  function Open(ps: Primitives, key: seq<Byte>, seed: seq<Byte>, ad: seq<Byte>, frame: seq<Byte>): (p: Option<seq<Byte>>)
    requires |frame| >= COUNTER_SIZE
  {
    ps.unlock(key, Nonce(seed, Counter(frame)), ad, frame[8..])
  }

  /** A sealed frame opens to its plaintext under the same key and seed, and shows its counter. */
  lemma OpenSeal(ps: Primitives, key: seq<Byte>, seed: seq<Byte>, ctr: U64, ad: seq<Byte>, plain: seq<Byte>)
    requires ps.Valid()
    ensures var f := Seal(ps, key, seed, ctr, ad, plain);
      && |f| == COUNTER_SIZE + |plain| + MAC_SIZE
      && Counter(f) == ctr && Open(ps, key, seed, ad, f) == Some(plain)
  {
    hide Number, Value;
    var f := Seal(ps, key, seed, ctr, ad, plain);
    assert f[..8] == Number(ctr, 8) && f[8..] == ps.lock(key, Nonce(seed, ctr), ad, plain);
    CounterRoundTrip(ctr);
  }

  /** The four secrets of one side of a session. */
  datatype Keys = Keys(sendKey: seq<Byte>, recvKey: seq<Byte>, sendSeed: seq<Byte>, recvSeed: seq<Byte>)

  function DeriveKeys(ps: Primitives, master: seq<Byte>, clientSide: bool, context: string): (k: Keys)
    requires ps.Valid()
  {
    var prefix := "VLan-" + context;
    var c2s, s2c := ps.derive(master, prefix + "-c2s-key"), ps.derive(master, prefix + "-s2c-key");
    var c2sNonce, s2cNonce := ps.derive(master, prefix + "-c2s-nonce"), ps.derive(master, prefix + "-s2c-nonce");
    if clientSide then Keys(c2s, s2c, c2sNonce[..16], s2cNonce[..16]) else Keys(s2c, c2s, s2cNonce[..16], c2sNonce[..16])
  }

  /** What one side sends with, the other side receives with. */
  lemma KeysPair(ps: Primitives, master: seq<Byte>, clientSide: bool, context: string)
    requires ps.Valid()
    ensures var a, b := DeriveKeys(ps, master, clientSide, context), DeriveKeys(ps, master, !clientSide, context);
      a.sendKey == b.recvKey && a.recvKey == b.sendKey && a.sendSeed == b.recvSeed && a.recvSeed == b.sendSeed
  {
  }

  /** Derivation gives different keys for different labels. */
  ghost predicate Collisionless(ps: Primitives)
  {
    forall m, d, e :: d != e ==> ps.derive(m, d) != ps.derive(m, e)
  }

  /** The labels of a context differ from each other and from all labels of any other context. */
  lemma LabelsDiffer(a: string, b: string)
    ensures "VLan-" + a + "-c2s-key" == "VLan-" + b + "-c2s-key" ==> a == b
    ensures "VLan-" + a + "-s2c-key" == "VLan-" + b + "-s2c-key" ==> a == b
    ensures "VLan-" + a + "-c2s-nonce" == "VLan-" + b + "-c2s-nonce" ==> a == b
    ensures "VLan-" + a + "-s2c-nonce" == "VLan-" + b + "-s2c-nonce" ==> a == b
    ensures "VLan-" + a + "-c2s-key" != "VLan-" + b + "-s2c-key"
    ensures "VLan-" + a + "-c2s-nonce" != "VLan-" + b + "-s2c-nonce"
    ensures "VLan-" + a + "-c2s-key" != "VLan-" + b + "-c2s-nonce"
    ensures "VLan-" + a + "-c2s-key" != "VLan-" + b + "-s2c-nonce"
    ensures "VLan-" + a + "-s2c-key" != "VLan-" + b + "-c2s-nonce"
    ensures "VLan-" + a + "-s2c-key" != "VLan-" + b + "-s2c-nonce"
  {
    SameMiddle("VLan-", a, b, "-c2s-key");
    SameMiddle("VLan-", a, b, "-s2c-key");
    SameMiddle("VLan-", a, b, "-c2s-nonce");
    SameMiddle("VLan-", a, b, "-s2c-nonce");
    FromTheEnd("VLan-" + a, "VLan-" + b, "-c2s-key", "-s2c-key", 7);
    FromTheEnd("VLan-" + a, "VLan-" + b, "-c2s-nonce", "-s2c-nonce", 9);
    FromTheEnd("VLan-" + a, "VLan-" + b, "-c2s-key", "-c2s-nonce", 1);
    FromTheEnd("VLan-" + a, "VLan-" + b, "-c2s-key", "-s2c-nonce", 1);
    FromTheEnd("VLan-" + a, "VLan-" + b, "-s2c-key", "-c2s-nonce", 1);
    FromTheEnd("VLan-" + a, "VLan-" + b, "-s2c-key", "-s2c-nonce", 1);
  }

  lemma SameMiddle(head: string, a: string, b: string, tail: string)
    ensures head + a + tail == head + b + tail ==> a == b
  {
    if head + a + tail == head + b + tail {
      assert |head + a + tail| == |head| + |a| + |tail| && |head + b + tail| == |head| + |b| + |tail|;
      assert (head + a + tail)[|head|..|head| + |a|] == a;
      assert (head + b + tail)[|head|..|head| + |b|] == b;
    }
  }

  /** Strings differ if their ends do, k places from the end. */
  lemma FromTheEnd(a: string, b: string, s: string, t: string, k: nat)
    requires 0 < k <= |s| && k <= |t| && s[|s| - k] != t[|t| - k]
    ensures a + s != b + t
  {
    var x, y := a + s, b + t;
    assert x[|x| - k] == s[|s| - k] && y[|y| - k] == t[|t| - k];
  }

  /** What the four secrets of a side are derived from. */
  ghost predicate Derived(ps: Primitives, master: seq<Byte>, clientSide: bool, context: string, k: Keys)
    requires ps.Valid()
  {
    if clientSide then
      && k.sendKey == ps.derive(master, "VLan-" + context + "-c2s-key")
      && k.recvKey == ps.derive(master, "VLan-" + context + "-s2c-key")
      && k.sendSeed == ps.derive(master, "VLan-" + context + "-c2s-nonce")[..16]
      && k.recvSeed == ps.derive(master, "VLan-" + context + "-s2c-nonce")[..16]
    else
      && k.sendKey == ps.derive(master, "VLan-" + context + "-s2c-key")
      && k.recvKey == ps.derive(master, "VLan-" + context + "-c2s-key")
      && k.sendSeed == ps.derive(master, "VLan-" + context + "-s2c-nonce")[..16]
      && k.recvSeed == ps.derive(master, "VLan-" + context + "-c2s-nonce")[..16]
  }

  lemma DerivedKeys(ps: Primitives, master: seq<Byte>, clientSide: bool, context: string)
    requires ps.Valid()
    ensures Derived(ps, master, clientSide, context, DeriveKeys(ps, master, clientSide, context))
  {
  }

  /** No two frames of one master secret are sealed under the same key and nonce: not by the two sides of
   * a session, not in two contexts, and not under two counters. */
  lemma NoSharedNonce(ps: Primitives, master: seq<Byte>, side: bool, context: string, a: Keys, ctr: U64,
      side': bool, context': string, b: Keys, ctr': U64)
    requires ps.Valid() && Collisionless(ps)
    requires Derived(ps, master, side, context, a) && Derived(ps, master, side', context', b)
    ensures a.sendKey == b.sendKey && Number(ctr, 8) + a.sendSeed == Number(ctr', 8) + b.sendSeed <==>
      side == side' && context == context' && ctr == ctr'
    ensures a.sendKey == b.recvKey <==> side != side' && context == context'
  {
    hide Number;
    LabelsDiffer(context, context');
    LabelsDiffer(context', context);
    if side == side' && context == context' && Number(ctr, 8) + a.sendSeed == Number(ctr', 8) + b.sendSeed {
      NonceInjective(a.sendSeed, ctr, ctr');
    }
  }

  // ---------------------------------------------------------------- the cipher

  class SecureFrameCipher {
    const ps: Primitives
    var sendKey: seq<Byte>
    var recvKey: seq<Byte>
    var sendNonceSeed: seq<Byte>
    var recvNonceSeed: seq<Byte>
    var sendCounter: U64
    var recvMaxCounter: U64
    var recvStarted: bool
    var initialized: bool
    const replayBitmap: array<bv8>
    /** The counters accepted and the nonces used since the keys were installed. */
    ghost var accepted: set<U64>
    ghost var nonces: set<seq<Byte>>

    ghost function State(): (w: Window)
      reads this
    {
      Window(recvStarted, recvMaxCounter, accepted)
    }

    ghost predicate Valid()
      reads this, replayBitmap
    {
      && ps.Valid() && replayBitmap.Length == 256
      && Coherent(State())
      && (recvStarted ==> RingHolds(replayBitmap[..], recvMaxCounter, accepted))
      && NoncesBelow(nonces, sendNonceSeed, sendCounter)
    }

    constructor (ps: Primitives)
      requires ps.Valid()
      ensures Valid() && this.ps == ps && !initialized && State() == EmptyWindow() && fresh(replayBitmap)
    {
      this.ps := ps;
      sendKey, recvKey := seq(32, i => 0), seq(32, i => 0);
      sendNonceSeed, recvNonceSeed := seq(16, i => 0), seq(16, i => 0);
      sendCounter, recvMaxCounter, recvStarted, initialized := 0, 0, false, false;
      replayBitmap := new bv8[256](i => 0);
      accepted, nonces := {}, {};
    }

    /** memset of the bitmap */
    method ClearRing()
      requires replayBitmap.Length == 256
      modifies replayBitmap
      ensures forall i :: 0 <= i < 256 ==> replayBitmap[i] == 0
    {
      for i := 0 to 256
        invariant forall j :: 0 <= j < i ==> replayBitmap[j] == 0
      {
        replayBitmap[i] := 0;
      }
    }

    method Init(master: seq<Byte>, clientSide: bool, context: string)
      requires Valid()
      modifies this, replayBitmap
      ensures Valid() && initialized
      ensures sendKey == DeriveKeys(ps, master, clientSide, context).sendKey
      ensures recvKey == DeriveKeys(ps, master, clientSide, context).recvKey
      ensures old(initialized) && old(sendKey) == sendKey && old(recvKey) == recvKey ==>
        && sendCounter == old(sendCounter) && State() == old(State()) && nonces == old(nonces)
        && sendNonceSeed == old(sendNonceSeed) && recvNonceSeed == old(recvNonceSeed)
      ensures !(old(initialized) && old(sendKey) == sendKey && old(recvKey) == recvKey) ==>
        && sendCounter == 0 && State() == EmptyWindow() && nonces == {}
        && sendNonceSeed == DeriveKeys(ps, master, clientSide, context).sendSeed
        && recvNonceSeed == DeriveKeys(ps, master, clientSide, context).recvSeed
      ensures !(old(initialized) && old(sendKey) == sendKey && old(recvKey) == recvKey) ==>
        Derived(ps, master, clientSide, context, Keys(sendKey, recvKey, sendNonceSeed, recvNonceSeed))
      ensures if clientSide then
          sendKey == ps.derive(master, "VLan-" + context + "-c2s-key") && recvKey == ps.derive(master, "VLan-" + context + "-s2c-key")
        else
          sendKey == ps.derive(master, "VLan-" + context + "-s2c-key") && recvKey == ps.derive(master, "VLan-" + context + "-c2s-key")
    {
      hide RingHolds, DeriveKeys, Primitives.Valid;
      DerivedKeys(ps, master, clientSide, context);
      var keys := DeriveKeys(ps, master, clientSide, context);
      if initialized && sendKey == keys.sendKey && recvKey == keys.recvKey {
        return;
      }
      ClearRing();
      initialized := true;
      sendKey, recvKey := keys.sendKey, keys.recvKey;
      sendNonceSeed, recvNonceSeed := keys.sendSeed, keys.recvSeed;
      sendCounter, recvMaxCounter, recvStarted := 0, 0, false;
      accepted, nonces := {}, {};
    }

    method Encrypt(plain: seq<Byte>, ad: seq<Byte>) returns (frame: seq<Byte>)
      requires Valid()
      modifies this`sendCounter, this`nonces
      ensures Valid()
      ensures if old(initialized) && old(sendCounter) != COUNTER_MAX then
          && frame == Seal(ps, sendKey, sendNonceSeed, old(sendCounter), ad, plain)
          && sendCounter == old(sendCounter) + 1
          && Nonce(sendNonceSeed, old(sendCounter)) !in old(nonces)
          && nonces == old(nonces) + {Nonce(sendNonceSeed, old(sendCounter))}
        else frame == [] && sendCounter == old(sendCounter) && nonces == old(nonces)
      ensures old(initialized) && old(sendCounter) != 0xffff_ffff_ffff_ffff ==>
        frame == Number(old(sendCounter), 8) + ps.lock(sendKey, Number(old(sendCounter), 8) + sendNonceSeed, ad, plain)
    {
      hide Number, RingHolds;
      if !initialized || sendCounter == COUNTER_MAX {
        return [];
      }
      var ctr := sendCounter;
      sendCounter := sendCounter + 1;
      var nonce := Nonce(sendNonceSeed, ctr);
      NonceFresh(nonces, sendNonceSeed, ctr);
      nonces := nonces + {nonce};
      frame := Number(ctr, 8) + ps.lock(sendKey, nonce, ad, plain);
    }

    method IsCounterAllowed(ctr: U64) returns (ok: bool)
      requires Valid()
      ensures ok == Accepts(State(), ctr)
      ensures ok <==> !recvStarted || ctr > recvMaxCounter || (recvMaxCounter - ctr < 2048 && ctr !in accepted)
    {
      hide TestBit;
      if !recvStarted {
        return true;
      }
      if ctr > recvMaxCounter {
        return true;
      }
      if recvMaxCounter - ctr >= REPLAY_WINDOW {
        return false;
      }
      var pos := ctr % REPLAY_WINDOW;
      InRing(replayBitmap[..], recvMaxCounter, accepted, ctr);
      return !TestBit(replayBitmap[pos / 8], pos % 8);
    }

    /** The ring forgets the positions of the next counters. */
    method Advance(shift: nat)
      requires shift < 2048 && RingHolds(replayBitmap[..], recvMaxCounter, accepted)
      requires forall c :: c in accepted ==> c <= recvMaxCounter
      modifies replayBitmap
      ensures RingHolds(replayBitmap[..], recvMaxCounter + shift, accepted)
    {
      hide RingHolds, ClearBit;
      assert replayBitmap.Length == 256 by {
        RingLength(replayBitmap[..], recvMaxCounter, accepted);
      }
      for i := 1 to shift + 1
        invariant RingHolds(replayBitmap[..], recvMaxCounter + i - 1, accepted)
      {
        RingNext(replayBitmap[..], recvMaxCounter + i - 1, accepted);
        var pos := (recvMaxCounter + i) % REPLAY_WINDOW;
        ghost var before := replayBitmap[..];
        replayBitmap[pos / 8] := ClearBit(replayBitmap[pos / 8], pos % 8);
        assert replayBitmap[..] == before[pos / 8 := ClearBit(before[pos / 8], pos % 8)];
      }
    }

    method RecordCounter(ctr: U64) returns (ok: bool)
      requires Valid()
      modifies this`recvStarted, this`recvMaxCounter, this`accepted, replayBitmap
      ensures Valid() && ok == Accepts(old(State()), ctr) && State() == Accept(old(State()), ctr)
      ensures accepted == if ok then old(accepted) + {ctr} else old(accepted)
      ensures ok ==> recvStarted && recvMaxCounter == if old(recvStarted) && ctr < old(recvMaxCounter) then old(recvMaxCounter) else ctr
      ensures !ok ==> recvStarted == old(recvStarted) && recvMaxCounter == old(recvMaxCounter)
    {
      hide RingHolds, TestBit, SetBit, Primitives.Valid, NoncesBelow;
      var inside := MakeRoom(ctr);
      if !inside {
        return false;
      }
      var pos := ctr % REPLAY_WINDOW;
      ghost var before := replayBitmap[..];
      InRing(before, recvMaxCounter, accepted, ctr);
      RingAdd(before, recvMaxCounter, accepted, ctr);
      if TestBit(replayBitmap[pos / 8], pos % 8) {
        return false;
      }
      replayBitmap[pos / 8] := SetBit(replayBitmap[pos / 8], pos % 8);
      assert replayBitmap[..] == before[pos / 8 := SetBit(before[pos / 8], pos % 8)];
      accepted := accepted + {ctr};
      return true;
    }

    /** The part of recordCounter before the bit is looked at: the window moves up if it has to. */
    method MakeRoom(ctr: U64) returns (inside: bool)
      requires replayBitmap.Length == 256 && Coherent(State()) && (recvStarted ==> RingHolds(replayBitmap[..], recvMaxCounter, accepted))
      modifies this`recvStarted, this`recvMaxCounter, replayBitmap
      ensures inside == (!old(recvStarted) || ctr > old(recvMaxCounter) || old(recvMaxCounter) - ctr < REPLAY_WINDOW)
      ensures recvStarted && recvMaxCounter == if old(recvStarted) && ctr <= old(recvMaxCounter) then old(recvMaxCounter) else ctr
      ensures RingHolds(replayBitmap[..], recvMaxCounter, accepted)
    {
      hide RingHolds;
      if !recvStarted {
        recvStarted := true;
        recvMaxCounter := ctr;
        ClearRing();
        EmptyRing(replayBitmap[..], ctr, accepted);
      } else if ctr > recvMaxCounter {
        var shift := ctr - recvMaxCounter;
        if shift >= REPLAY_WINDOW {
          ClearRing();
          EmptyRing(replayBitmap[..], ctr, accepted);
        } else {
          Advance(shift);
        }
        recvMaxCounter := ctr;
      } else if recvMaxCounter - ctr >= REPLAY_WINDOW {
        return false;
      }
      return true;
    }

    method Decrypt(frame: seq<Byte>, ad: seq<Byte>) returns (ok: bool, plain: seq<Byte>)
      requires Valid()
      modifies this`recvStarted, this`recvMaxCounter, this`accepted, replayBitmap
      ensures Valid()
      ensures ok <==> (old(initialized) && |frame| >= COUNTER_SIZE + MAC_SIZE && Accepts(old(State()), Counter(frame))
                       && Open(ps, recvKey, recvNonceSeed, ad, frame).Some?)
      ensures ok ==> plain == Open(ps, recvKey, recvNonceSeed, ad, frame).value
      ensures State() == if ok then Accept(old(State()), Counter(frame)) else old(State())
      ensures ok <==>
        && old(initialized) && |frame| >= 24
        && (!old(recvStarted) || Value(frame[..8]) > old(recvMaxCounter)
            || (old(recvMaxCounter) - Value(frame[..8]) < 2048 && Value(frame[..8]) !in old(accepted)))
        && ps.unlock(recvKey, frame[..8] + recvNonceSeed, ad, frame[8..]).Some?
      ensures ok ==> accepted == old(accepted) + {Value(frame[..8])}
    {
      hide RingHolds, Number, Value;
      plain := [];
      if !initialized || |frame| < COUNTER_SIZE + MAC_SIZE {
        return false, [];
      }
      var ctr := Counter(frame);
      NumberOfValue(frame[..8]);
      var isAllowed := IsCounterAllowed(ctr);
      if !isAllowed {
        return false, [];
      }
      var text := ps.unlock(recvKey, Nonce(recvNonceSeed, ctr), ad, frame[8..]);
      if text.None? {
        return false, [];
      }
      var recorded := RecordCounter(ctr);
      assert recorded;
      return true, text.value;
    }
  }

  ghost predicate NoncesBelow(ns: set<seq<Byte>>, seed: seq<Byte>, next: int)
  {
    forall n :: n in ns ==> exists c: U64 :: c < next && n == Nonce(seed, c)
  }

  lemma NonceFresh(ns: set<seq<Byte>>, seed: seq<Byte>, ctr: U64)
    requires NoncesBelow(ns, seed, ctr)
    ensures Nonce(seed, ctr) !in ns
    ensures NoncesBelow(ns + {Nonce(seed, ctr)}, seed, ctr + 1)
  {
    hide Nonce;
    if Nonce(seed, ctr) in ns {
      var c: U64 :| c < ctr && Nonce(seed, ctr) == Nonce(seed, c);
      NonceInjective(seed, c, ctr);
    }
  }

  /** A frame of one side is accepted by the other side at most once, and gives its plaintext. */
  method SealedOnce(a: SecureFrameCipher, b: SecureFrameCipher, plain: seq<Byte>, ad: seq<Byte>)
    returns (frame: seq<Byte>, first: bool, got: seq<Byte>, second: bool)
    requires a != b && a.replayBitmap != b.replayBitmap && a.Valid() && b.Valid() && a.ps == b.ps
    requires a.initialized && b.initialized && a.sendCounter != COUNTER_MAX
    requires a.sendKey == b.recvKey && a.sendNonceSeed == b.recvNonceSeed
    modifies a, b, b.replayBitmap
    ensures first == Accepts(old(b.State()), old(a.sendCounter))
    ensures first ==> got == plain
    ensures !second
  {
    hide Open, Seal;
    frame := a.Encrypt(plain, ad);
    OpenSeal(a.ps, a.sendKey, a.sendNonceSeed, old(a.sendCounter), ad, plain);
    first, got := b.Decrypt(frame, ad);
    var again;
    second, again := b.Decrypt(frame, ad);
  }
}
