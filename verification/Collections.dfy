/** Facts about sequences, finite sets and maps that several modules need. */
module Collections {

  datatype Option<T> = None | Some(value: T)

  lemma Associates<T>(a: seq<T>, b: seq<T>, c: seq<T>)
    ensures (a + b) + c == a + (b + c)
  {
  }

  // ---------------------------------------------------------------- maps

  lemma Smaller<K, V>(m: map<K, V>, k: K)
    requires k in m
    ensures (m - {k}).Keys == m.Keys - {k} && |m - {k}| == |m| - 1
  {
    assert (m - {k}).Keys == m.Keys - {k};
    assert |m.Keys - {k}| == |m.Keys| - 1;
    assert |(m - {k}).Keys| == |m - {k}| && |m.Keys| == |m|;
  }

  lemma Larger<K, V>(m: map<K, V>, k: K, v: V)
    requires k !in m
    ensures m[k := v].Keys == m.Keys + {k} && |m[k := v]| == |m| + 1
  {
    assert m[k := v].Keys == m.Keys + {k};
    assert |m[k := v].Keys| == |m[k := v]| && |m.Keys| == |m|;
  }

  /** The sizes of all values together. */
  ghost function Sum<K, V>(m: map<K, V>, size: V -> nat): (n: nat)
    decreases |m|
  {
    if m == map[] then 0
    else
      var k :| k in m;
      Smaller(m, k);
      size(m[k]) + Sum(m - {k}, size)
  }

  /** The sum does not depend on the order. */
  lemma {:induction false} SumWithout<K, V>(m: map<K, V>, size: V -> nat, k: K)
    requires k in m
    ensures Sum(m, size) == size(m[k]) + Sum(m - {k}, size)
    decreases |m|
  {
    var f :| f in m && Sum(m, size) == size(m[f]) + Sum(m - {f}, size);
    if f != k {
      Smaller(m, f);
      Smaller(m, k);
      SumWithout(m - {f}, size, k);
      SumWithout(m - {k}, size, f);
      assert m - {f} - {k} == m - {k} - {f};
    }
  }

  lemma SumWith<K, V>(m: map<K, V>, size: V -> nat, k: K, v: V)
    ensures Sum(m[k := v], size) == size(v) + Sum(m - {k}, size)
    ensures k in m ==> Sum(m, size) == size(m[k]) + Sum(m - {k}, size)
    ensures k !in m ==> m - {k} == m
  {
    SumWithout(m[k := v], size, k);
    assert m[k := v] - {k} == m - {k};
    if k in m {
      SumWithout(m, size, k);
    } else {
      assert m - {k} == m;
    }
  }

  // ---------------------------------------------------------------- sets of numbers

  lemma {:induction false} SubsetSize<T>(s: set<T>, t: set<T>)
    requires s <= t
    ensures |s| <= |t|
  {
    if s != {} {
      var x :| x in s;
      SubsetSize(s - {x}, t - {x});
    }
  }

  lemma SameSet<T>(s: set<T>, t: set<T>)
    requires s <= t && |s| >= |t|
    ensures s == t
  {
    if x :| x in t && x !in s {
      SubsetSize(s, t - {x});
    }
  }

  ghost function UpTo(n: nat): (s: set<nat>)
    ensures |s| == n && forall i: nat :: i in s <==> i < n
  {
    if n == 0 then {} else UpTo(n - 1) + {n - 1}
  }

  /** A subtraction of sizes that stops at zero. */
  function Saturating(a: nat, b: nat): nat
  {
    if b > a then 0 else a - b
  }
}
