/**
 * The example of section 2.5.2 of RFC 8439, computed from the definitions of module Poly1305.
 */
module Poly1305Example {
  import opened Bytes
  import opened Numbers
  import opened Poly1305
  import opened Poly1305Stream

  const KEY: seq<Byte> := [133, 214, 190, 120, 87, 85, 109, 51, 127, 68, 82, 254, 66, 213, 6, 168]
    + [1, 3, 128, 138, 251, 13, 178, 253, 74, 191, 246, 175, 65, 73, 245, 27]
  const ONE: seq<Byte> := [67, 114, 121, 112, 116, 111, 103, 114, 97, 112, 104, 105, 99, 32, 70, 111]
  const TWO: seq<Byte> := [114, 117, 109, 32, 82, 101, 115, 101, 97, 114, 99, 104, 32, 71, 114, 111]
  const THREE: seq<Byte> := [117, 112]
  const R: nat := 10669302975710760130990824415874176645
  const S: nat := 37162754436723567162214218529947779841

  lemma Words(s: seq<Byte>, a: nat, b: nat, c: nat, d: nat)
    requires |s| == 16 && Load32(s, 0) == a && Load32(s, 4) == b && Load32(s, 8) == c && Load32(s, 12) == d
    ensures Little(s) == a + b * 0x1_0000_0000 + c * 0x1_0000_0000_0000_0000 + d * 0x1_0000_0000_0000_0000_0000_0000
  {
    hide Little, Load32;
    LittleWords(s);
  }

  lemma KeyIs()
    ensures Little(Clamp(KEY)) == R
  {
    hide Little;
    var s: seq<Byte> := [133, 214, 190, 8, 84, 85, 109, 3, 124, 68, 82, 14, 64, 213, 6, 8];
    assert Clamp(KEY) == s;
    Words(s, 146724485, 57496916, 240272508, 134665536);
  }

  lemma PadIs()
    ensures Little(KEY[16..]) == S
  {
    hide Little;
    var s: seq<Byte> := [1, 3, 128, 138, 251, 13, 178, 253, 74, 191, 246, 175, 65, 73, 245, 27];
    assert KEY[16..] == s;
    Words(s, 2323645185, 4256304635, 2952183626, 469059905);
  }

  lemma OneIs()
    ensures Little(ONE) == 147908425225540690611047796896236663363
  {
    hide Little;
    var s: seq<Byte> := [67, 114, 121, 112, 116, 111, 103, 114, 97, 112, 104, 105, 99, 32, 70, 111];
    assert ONE == s;
    Words(s, 1887007299, 1919381364, 1768452193, 1866866787);
  }

  lemma TwoIs()
    ensures Little(TWO) == 148137671992688356791019219269509281138
  {
    hide Little;
    var s: seq<Byte> := [114, 117, 109, 32, 82, 101, 115, 101, 97, 114, 99, 104, 32, 71, 114, 111];
    assert TWO == s;
    Words(s, 544044402, 1702061394, 1751347809, 1869760288);
  }

  lemma ThreeIs()
    ensures Little(THREE) == 28789
  {
    LittleCons(THREE[0], [THREE[1]]);
    LittleCons(THREE[1], []);
    assert THREE == [THREE[0]] + [THREE[1]] && [THREE[1]] + [] == [THREE[1]];
    assert Little([]) == 0;
  }

  /** One block more. */
  lemma Next(before: seq<Byte>, block: seq<Byte>, a: nat, n: nat, q: nat, rem: nat)
    requires |before| % 16 == 0 && 0 < |block| <= 16 && Accumulate(R, before) == a && Little(block) == n
    requires (a + n + Pow256(|block|)) * R == q * P + rem && rem < P
    ensures Accumulate(R, before + block) == rem
  {
    hide Little, Accumulate, Pow256;
    var msg := before + block;
    assert msg[..|before|] == before && msg[|before|..] == block;
    AccumulateLast(R, msg, |before|);
    ModUnique((a + n + Pow256(|block|)) * R, q, rem);
  }

  /** The tag of the message is a8 06 1d c1 30 51 36 c6 c2 2b 8b af 0c 01 27 a9. */
  lemma ExampleTag()
    ensures Tag(KEY, ONE + TWO + THREE) == 0xa927010caf8b2bc2c6365130c11d06a8
  {
    hide Little, Accumulate, Clamp, Pow256;
    KeyIs();
    PadIs();
    OneIs();
    TwoIs();
    ThreeIs();
    Powers();
    PowerTwo();
    AccumulateNone();
    Next([], ONE, 0, 147908425225540690611047796896236663363,
      3826715676229270580101917738998931721, 947139678672626127302815011309577077756);
    assert [] + ONE == ONE;
    Next(ONE, TWO, 947139678672626127302815011309577077756, 148137671992688356791019219269509281138,
      11252729391508655008478211189327667544, 968579800537143227476548198651877077214);
    Next(ONE + TWO, THREE, 968579800537143227476548198651877077214, 28789,
      7592276556667205255412131484324801000, 868244031557762678448005180662195487655);
  }

  lemma PowerTwo()
    ensures Pow256(2) == 65536
  {
    Widths();
  }

  lemma AccumulateNone()
    ensures Accumulate(R, []) == 0
  {
  }
}
