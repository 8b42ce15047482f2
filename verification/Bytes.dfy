/** Bytes (uint8_t) as numbers, and the exclusive or that adds them in characteristic two. */
module Bytes {
  import B = Gf256Bits

  type Byte = x: int | 0 <= x < 256

  /** The bits of a byte. */
  function Bits(a: Byte): (b: bv8)
    ensures b as int == a
  {
    if a == 0 then 0 else B.Successor(Bits(a - 1)); Bits(a - 1) + 1
  }

  lemma BitsOfInt(b: bv8)
    ensures 0 <= b as int < 256 && Bits(b as int) == b
  {
    B.SameOctet(Bits(b as int), b);
  }

  /** The operator ^ on bytes, gf256_add. */
  function Add(a: Byte, b: Byte): (r: Byte)
  {
    BitsOfInt(B.Add(Bits(a), Bits(b)));
    B.Add(Bits(a), Bits(b)) as int
  }

  lemma BitsOfAdd(a: Byte, b: Byte)
    ensures Bits(Add(a, b)) == B.Add(Bits(a), Bits(b))
  {
    BitsOfInt(B.Add(Bits(a), Bits(b)));
  }

  lemma AddComm(a: Byte, b: Byte)
    ensures Add(a, b) == Add(b, a)
  {
    B.AddComm(Bits(a), Bits(b));
  }

  lemma AddAssoc(a: Byte, b: Byte, c: Byte)
    ensures Add(Add(a, b), c) == Add(a, Add(b, c))
  {
    hide Bits, B.Add;
    BitsOfAdd(a, b);
    BitsOfAdd(b, c);
    B.AddAssoc(Bits(a), Bits(b), Bits(c));
  }

  lemma AddZero(a: Byte)
    ensures Add(a, 0) == a && Add(0, a) == a && Add(a, a) == 0
  {
    B.AddZero(Bits(a));
  }

  /** Adding the same byte twice leaves the other operand. */
  lemma AddCancel(a: Byte, b: Byte)
    ensures Add(Add(a, b), b) == a
    ensures Add(a, b) == 0 <==> a == b
  {
    hide Add;
    AddAssoc(a, b, b);
    AddZero(a);
    AddZero(b);
  }

  /** (a + b) + (c + d) = (a + c) + (b + d). */
  lemma AddSwap(a: Byte, b: Byte, c: Byte, d: Byte)
    ensures Add(Add(a, b), Add(c, d)) == Add(Add(a, c), Add(b, d))
  {
    hide Add;
    AddAssoc(a, b, Add(c, d));
    AddAssoc(b, c, d);
    AddComm(b, c);
    AddAssoc(c, b, d);
    AddAssoc(a, c, Add(b, d));
  }

  /** A byte is the exclusive or of its halves. */
  lemma NibbleSum(a: Byte)
    ensures Add(a % 16, 16 * (a / 16)) == a
  {
    hide B.Add;
    var b := Bits(a);
    B.Halves(b);
    BitsOfInt(b & 15);
    BitsOfInt(b & 240);
  }
}
