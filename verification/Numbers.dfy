/** Numbers written as bytes, the most significant first. */
module Numbers {
  import opened Bytes

  function Pow256(n: nat): (p: nat)
    ensures p > 0
  {
    if n == 0 then 1 else 256 * Pow256(n - 1)
  }

  /** n bytes, the most significant first. */
  function Number(x: nat, n: nat): (s: seq<Byte>)
    ensures |s| == n
  {
    if n == 0 then [] else Number(x / 256, n - 1) + [x % 256]
  }

  function Value(s: seq<Byte>): (x: nat)
  {
    if s == [] then 0
    else
      var last: int := s[|s| - 1];
      256 * Value(s[..|s| - 1]) + last
  }

  lemma {:induction false} ValueOfNumber(x: nat, n: nat)
    requires x < Pow256(n)
    ensures Value(Number(x, n)) == x
  {
    if n > 0 {
      ValueOfNumber(x / 256, n - 1);
      assert Number(x, n)[..n - 1] == Number(x / 256, n - 1);
    }
  }

  lemma {:induction false} NumberOfValue(s: seq<Byte>)
    ensures Value(s) < Pow256(|s|) && Number(Value(s), |s|) == s
  {
    if s != [] {
      NumberOfValue(s[..|s| - 1]);
    }
  }

  /** The byte at place k counts the powers of 256 from the left. */
  lemma {:induction false} NumberAt(x: nat, n: nat, k: nat)
    requires k < n
    ensures Number(x, n)[k] == x / Pow256(n - 1 - k) % 256
  {
    if k < n - 1 {
      NumberAt(x / 256, n - 1, k);
      DividedTwice(x, Pow256(n - 2 - k));
    } else {
      assert Pow256(0) == 1;
    }
  }

  lemma DividedTwice(x: nat, p: nat)
    requires 0 < p
    ensures x / 256 / p == x / (256 * p)
  {
    var q, r := x / 256 / p, x / 256 % p;
    var b := x % 256;
    assert x == 256 * (q * p + r) + b;
    assert 256 * (q * p + r) == q * (256 * p) + 256 * r;
    assert 256 * r + b < 256 * p;
    DivUnique(x, 256 * p, q, 256 * r + b);
  }

  lemma DivUnique(m: nat, d: nat, q: nat, r: nat)
    requires r < d && m == q * d + r
    ensures m / d == q
  {
    var q', r' := m / d, m % d;
    assert (q' - q) * d == r - r';
    if q' > q {
      AtLeast(q' - q, d);
    } else if q' < q {
      AtLeast(q - q', d);
    }
  }

  lemma AtLeast(a: nat, d: nat)
    requires 1 <= a
    ensures a * d >= d
  {
    assert a * d == d + (a - 1) * d;
  }

  lemma Widths()
    ensures Pow256(1) == 0x100 && Pow256(2) == 0x1_0000 && Pow256(4) == 0x1_0000_0000 && Pow256(8) == 0x1_0000_0000_0000_0000
  {
    assert Pow256(2) == 256 * Pow256(1);
    assert Pow256(4) == 256 * 256 * Pow256(2);
    assert Pow256(6) == 256 * 256 * Pow256(4);
    assert Pow256(8) == 256 * 256 * Pow256(6);
  }
}
