/**
 * The erasure code is maximum distance separable: any N blocks of one size with N different indices
 * are blocks of some code word, whoever made them. So a decoder that is given such blocks never
 * meets a system it cannot solve, even when the blocks come from different senders.
 */
module CodeWords {
  import opened Bytes
  import opened Collections
  import opened Gf256
  import opened Cauchy
  import opened Cm256
  import Decoding = Cm256Decoder
  import F = FecGroups

  // ---------------------------------------------------------------- every right hand side has a solution

  /** Residuals from step k + 1 on do not look at unknown k. */
  lemma {:induction false} ResidualIgnores(xs: seq<Byte>, ys: seq<Byte>, x0: Byte, v: seq<Byte>, k: nat, z: Byte, i: nat, hi: nat)
    requires |xs| == |ys| == |v| && k < |xs| && i < |xs| && hi <= |v|
    ensures Residual(xs, ys, x0, v[k := z], k + 1, i, hi) == Residual(xs, ys, x0, v, k + 1, i, hi)
  {
    hide Add, Mul, S;
    if hi > k + 1 {
      ResidualIgnores(xs, ys, x0, v, k, z, i, hi - 1);
    }
  }

  /** Unknown k enters a residual of step k with its own term. */
  lemma {:induction false} ResidualWith(xs: seq<Byte>, ys: seq<Byte>, x0: Byte, v: seq<Byte>, k: nat, z: Byte, i: nat, hi: nat)
    requires |xs| == |ys| == |v| && k < |xs| && i < |xs| && k < hi <= |v|
    ensures Residual(xs, ys, x0, v[k := z], k, i, hi)
         == Add(Residual(xs, ys, x0, v[k := 0], k, i, hi), Mul(S(xs, ys, x0, k, i, k), z))
  {
    hide Add, Mul, S;
    var own := Mul(S(xs, ys, x0, k, i, k), z);
    if hi == k + 1 {
      MulZero(S(xs, ys, x0, k, i, k));
      AddZero(0);
    } else {
      ResidualWith(xs, ys, x0, v, k, z, i, hi - 1);
      var rest, term := Residual(xs, ys, x0, v[k := 0], k, i, hi - 1), Mul(S(xs, ys, x0, k, i, hi - 1), v[hi - 1]);
      AddAssoc(rest, own, term);
      AddComm(own, term);
      AddAssoc(rest, term, own);
    }
  }

  /** The Schur complement of step k takes every value: back substitution, one unknown at a time. */
  lemma {:induction false} Solvable(xs: seq<Byte>, ys: seq<Byte>, x0: Byte, w: seq<Byte>, k: nat) returns (v: seq<Byte>)
    requires Points(xs, ys, x0) && |w| == |xs| && k <= |xs|
    ensures |v| == |xs| && forall i: nat :: k <= i < |xs| ==> Residual(xs, ys, x0, v, k, i, |xs|) == w[i]
    decreases |xs| - k
  {
    hide Add, Mul, S, L, D, Residual, Points;
    if k == |xs| {
      v := seq(|xs|, i => 0);
    } else {
      SamePoints(xs, ys, x0);
      var reduced := seq(|xs|, i requires 0 <= i < |xs| => Add(w[i], Mul(L(xs, ys, x0, i, k), w[k])));
      var u := Solvable(xs, ys, x0, reduced, k + 1);
      var tail := Residual(xs, ys, x0, u[k := 0], k, k, |xs|);
      var z := Div(Add(w[k], tail), D(xs, ys, x0, k));
      v := u[k := z];
      PivotSolved(xs, ys, x0, u, k, w[k]);
      forall i: nat | k < i < |xs|
        ensures Residual(xs, ys, x0, v, k, i, |xs|) == w[i]
      {
        ResidualIgnores(xs, ys, x0, u, k, z, i, |xs|);
        LowerStep(xs, ys, x0, v, k, i, |xs|);
        var m := Mul(L(xs, ys, x0, i, k), w[k]);
        AddCancel(Residual(xs, ys, x0, v, k, i, |xs|), m);
        AddCancel(w[i], m);
      }
    }
  }

  lemma SamePoints(xs: seq<Byte>, ys: seq<Byte>, x0: Byte)
    requires Points(xs, ys, x0)
    ensures |xs| == |ys|
  {
  }

  lemma PivotSolved(xs: seq<Byte>, ys: seq<Byte>, x0: Byte, u: seq<Byte>, k: nat, w: Byte)
    requires Points(xs, ys, x0) && |u| == |xs| && k < |xs|
    ensures var z := Div(Add(w, Residual(xs, ys, x0, u[k := 0], k, k, |xs|)), D(xs, ys, x0, k));
      Residual(xs, ys, x0, u[k := z], k, k, |xs|) == w
  {
    hide Add, Mul, S, Residual, Div;
    var tail := Residual(xs, ys, x0, u[k := 0], k, k, |xs|);
    var z := Div(Add(w, tail), D(xs, ys, x0, k));
    PivotNonzero(xs, ys, x0, k);
    DivMul(Add(w, tail), D(xs, ys, x0, k));
    ResidualWith(xs, ys, x0, u, k, z, k, |xs|);
    AddComm(tail, Add(w, tail));
    AddCancel(w, tail);
  }

  // ---------------------------------------------------------------- and only one

  /** A residual of step k depends on the unknowns from k on. */
  lemma {:induction false} ResidualAgrees(xs: seq<Byte>, ys: seq<Byte>, x0: Byte, v: seq<Byte>, v': seq<Byte>, k: nat, i: nat, hi: nat)
    requires |xs| == |ys| == |v| == |v'| && k <= |xs| && i < |xs| && hi <= |v| && v[k..] == v'[k..]
    ensures Residual(xs, ys, x0, v, k, i, hi) == Residual(xs, ys, x0, v', k, i, hi)
  {
    hide Add, Mul, S;
    if hi > k {
      ResidualAgrees(xs, ys, x0, v, v', k, i, hi - 1);
      assert v[k..][hi - 1 - k] == v'[k..][hi - 1 - k];
    }
  }

  /** Two columns with the same residuals are the same. */
  lemma {:induction false} UniqueSolution(xs: seq<Byte>, ys: seq<Byte>, x0: Byte, v: seq<Byte>, v': seq<Byte>, k: nat)
    requires Points(xs, ys, x0) && |v| == |v'| == |xs| && k <= |xs|
    requires forall i: nat :: k <= i < |xs| ==> Residual(xs, ys, x0, v, k, i, |xs|) == Residual(xs, ys, x0, v', k, i, |xs|)
    ensures v[k..] == v'[k..]
    decreases |xs| - k
  {
    hide Add, Mul, S, L, D, Residual, Points;
    SamePoints(xs, ys, x0);
    if k < |xs| {
      var next := k + 1;
      forall i: nat | next <= i < |xs|
        ensures Residual(xs, ys, x0, v, next, i, |xs|) == Residual(xs, ys, x0, v', next, i, |xs|)
      {
        LowerStep(xs, ys, x0, v, k, i, |xs|);
        LowerStep(xs, ys, x0, v', k, i, |xs|);
      }
      UniqueSolution(xs, ys, x0, v, v', k + 1);
      assert v[k := 0][k..] == [0] + v[k + 1..] == v'[k := 0][k..];
      ResidualAgrees(xs, ys, x0, v[k := 0], v'[k := 0], k, k, |xs|);
      SamePivot(xs, ys, x0, v, v', k);
      assert v[k..] == [v[k]] + v[k + 1..] && v'[k..] == [v'[k]] + v'[k + 1..];
    }
  }

  lemma SamePivot(xs: seq<Byte>, ys: seq<Byte>, x0: Byte, v: seq<Byte>, v': seq<Byte>, k: nat)
    requires Points(xs, ys, x0) && |v| == |v'| == |xs| && k < |xs|
    requires Residual(xs, ys, x0, v, k, k, |xs|) == Residual(xs, ys, x0, v', k, k, |xs|)
    requires Residual(xs, ys, x0, v[k := 0], k, k, |xs|) == Residual(xs, ys, x0, v'[k := 0], k, k, |xs|)
    ensures v[k] == v'[k]
  {
    hide Add, Mul, S, Residual;
    var tail, d := Residual(xs, ys, x0, v[k := 0], k, k, |xs|), D(xs, ys, x0, k);
    assert v[k := v[k]] == v && v'[k := v'[k]] == v';
    ResidualWith(xs, ys, x0, v, k, v[k], k, |xs|);
    ResidualWith(xs, ys, x0, v', k, v'[k], k, |xs|);
    AddComm(tail, Mul(d, v[k]));
    AddComm(tail, Mul(d, v'[k]));
    AddCancel(Mul(d, v[k]), tail);
    AddCancel(Mul(d, v'[k]), tail);
    PivotNonzero(xs, ys, x0, k);
    MulComm(d, v[k]);
    MulComm(d, v'[k]);
    MulCancel(v[k], v'[k], d);
  }

  // ---------------------------------------------------------------- one byte column

  /** A row of the code splits into the terms of two sets of originals. */
  lemma {:induction false} SplitSum(x: Byte, x0: Byte, col: seq<Byte>, n: nat, skip: set<nat>, rest: set<nat>)
    requires n <= |col| <= 256 && forall j: nat :: j < n ==> (j in skip <==> j !in rest)
    ensures RowSum(x, x0, col, n, {}) == Add(RowSum(x, x0, col, n, skip), RowSum(x, x0, col, n, rest))
  {
    hide Add, Mul, Element;
    if n == 0 {
      AddZero(0);
    } else {
      SplitSum(x, x0, col, n - 1, skip, rest);
      var a, b := RowSum(x, x0, col, n - 1, skip), RowSum(x, x0, col, n - 1, rest);
      var term := Mul(Element(x, x0, n - 1), col[n - 1]);
      AddAssoc(a, b, term);
      AddComm(b, term);
      AddAssoc(a, term, b);
    }
  }

  /** A row sum depends on the originals that are not skipped. */
  lemma {:induction false} SameSum(x: Byte, x0: Byte, col: seq<Byte>, col': seq<Byte>, n: nat, skip: set<nat>)
    requires n <= |col| == |col'| <= 256 && forall j: nat :: j < n && j !in skip ==> col[j] == col'[j]
    ensures RowSum(x, x0, col, n, skip) == RowSum(x, x0, col', n, skip)
  {
    hide Add, Mul, Element;
    if n > 0 {
      SameSum(x, x0, col, col', n - 1, skip);
    }
  }

  ghost function AsSet(ys: seq<nat>): set<nat>
  {
    set y | y in ys
  }

  /** The missing originals can be chosen so that every recovery row has the value given for it. */
  lemma ColumnExists(xs: seq<Byte>, ys: seq<Byte>, n: nat, received: set<nat>, known: seq<Byte>, w: seq<Byte>) returns (col: seq<Byte>)
    requires n < 256 && |known| == n && |w| == |xs| && Points(xs, ys, n) && ys == Missing(n, received)
    ensures |col| == n && forall j: nat :: j < n && j in received ==> col[j] == known[j]
    ensures forall i: nat :: i < |xs| ==> RowSum(xs[i], n, col, n, {}) == w[i]
  {
    hide Add, Mul, Element, RowSum, Residual, Missing, Points;
    SamePoints(xs, ys, n);
    F.MissingAll(n, received);
    var missing := AsSet(Missing(n, received));
    var target := seq(|xs|, i requires 0 <= i < |xs| => Add(w[i], RowSum(xs[i], n, known, n, missing)));
    var v := Solvable(xs, ys, n, target, 0);
    col := Filled(known, ys, v);
    forall i: nat | i < |xs|
      ensures RowSum(xs[i], n, col, n, {}) == w[i]
    {
      SplitSum(xs[i], n, col, n, received, missing);
      RowSumIsResidual(xs, ys, n, col, v, i, n, received);
      SameSum(xs[i], n, col, known, n, missing);
      AddCancel(w[i], RowSum(xs[i], n, known, n, missing));
    }
  }

  /** The values of the recovery rows and the received originals determine the column. */
  lemma ColumnUnique(xs: seq<Byte>, ys: seq<Byte>, n: nat, received: set<nat>, col: seq<Byte>, col': seq<Byte>)
    requires n < 256 && |col| == |col'| == n && Points(xs, ys, n) && ys == Missing(n, received)
    requires forall j: nat :: j < n && j in received ==> col[j] == col'[j]
    requires forall i: nat :: i < |xs| ==> RowSum(xs[i], n, col, n, {}) == RowSum(xs[i], n, col', n, {})
    ensures col == col'
  {
    hide Add, Mul, Element, RowSum, Residual, Missing, Points;
    SamePoints(xs, ys, n);
    F.MissingAll(n, received);
    var missing := AsSet(Missing(n, received));
    var v := seq(|ys|, m requires 0 <= m < |ys| => col[ys[m]]);
    var v' := seq(|ys|, m requires 0 <= m < |ys| => col'[ys[m]]);
    forall i: nat | i < |xs|
      ensures Residual(xs, ys, n, v, 0, i, |xs|) == Residual(xs, ys, n, v', 0, i, |xs|)
    {
      SplitSum(xs[i], n, col, n, received, missing);
      SplitSum(xs[i], n, col', n, received, missing);
      RowSumIsResidual(xs, ys, n, col, v, i, n, received);
      RowSumIsResidual(xs, ys, n, col', v', i, n, received);
      SameSum(xs[i], n, col, col', n, missing);
      AddCancel(RowSum(xs[i], n, col, n, received), RowSum(xs[i], n, col, n, missing));
      AddCancel(RowSum(xs[i], n, col', n, received), RowSum(xs[i], n, col, n, missing));
    }
    UniqueSolution(xs, ys, n, v, v', 0);
    assert v == v[0..] && v' == v'[0..];
    forall j: nat | j < n
      ensures col[j] == col'[j]
    {
      if j !in received {
        var m :| 0 <= m < |ys| && ys[m] == j;
        assert v[m] == v'[m];
      }
    }
  }

  /** The column with the solved values at the missing places. */
  ghost function Filled(known: seq<Byte>, ys: seq<Byte>, v: seq<Byte>): (col: seq<Byte>)
    requires |ys| == |v| && forall i, j :: 0 <= i < j < |ys| ==> ys[i] != ys[j]
    ensures |col| == |known|
    ensures forall j: nat :: j < |col| && j !in ys ==> col[j] == known[j]
    ensures forall m :: 0 <= m < |ys| && ys[m] < |col| ==> col[ys[m]] == v[m]
  {
    if ys == [] then known
    else
      var last := |ys| - 1;
      var before := Filled(known, ys[..last], v[..last]);
      if ys[last] < |known| then before[ys[last] := v[last]] else before
  }

  // ---------------------------------------------------------------- whole blocks

  ghost predicate Distinct(idx: seq<Byte>)
  {
    forall i, j :: 0 <= i < j < |idx| ==> idx[i] != idx[j]
  }

  /** Byte i of w is the byte of the block with index idx[i] when col are the bytes of the originals. */
  ghost predicate Meets(col: seq<Byte>, idx: seq<Byte>, w: seq<Byte>, n: nat)
    requires |idx| == |w| && n < 256
  {
    && |col| == n
    && (forall i: nat :: i < |idx| && idx[i] < n ==> col[idx[i]] == w[i])
    && (forall i: nat :: i < |idx| && idx[i] >= n ==> RowSum(idx[i], n, col, n, {}) == w[i])
  }

  /** The bytes of the originals that were given, and zeros. */
  ghost function Known(idx: seq<Byte>, w: seq<Byte>, n: nat): (known: seq<Byte>)
    requires |idx| == |w| && n < 256 && Distinct(idx)
    ensures |known| == n && forall i: nat :: i < |idx| && idx[i] < n ==> known[idx[i]] == w[i]
  {
    if idx == [] then seq(n, j => 0)
    else
      var last := |idx| - 1;
      var before := Known(idx[..last], w[..last], n);
      if idx[last] < n then before[idx[last] := w[last]] else before
  }

  lemma Meeting(idx: seq<Byte>, w: seq<Byte>, n: nat) returns (col: seq<Byte>)
    requires |idx| == |w| == n && 0 < n < 256 && Distinct(idx)
    ensures Meets(col, idx, w, n)
  {
    hide RowSum, Decoding.Pick, Missing, Points;
    var known := Known(idx, w, n);
    var xs := Decoding.Pick(idx, idx, n, false);
    Decoding.PickLength(w, idx, n, false);
    Decoding.PickLength(idx, idx, n, false);
    if xs == [] {
      AllOriginals(idx, n);
      col := known;
    } else {
      Decoding.GivenIsProblem(idx, n, 256 - n);
      var received := Decoding.Received(idx, n);
      var ys: seq<Byte> := Missing(n, received);
      col := ColumnExists(xs, ys, n, received, known, Decoding.Pick(w, idx, n, false));
      forall i: nat | i < n && idx[i] >= n
        ensures RowSum(idx[i], n, col, n, {}) == w[i]
      {
        Decoding.PickAtRank(idx, idx, n, false, i);
        Decoding.PickAtRank(w, idx, n, false, i);
      }
    }
  }

  lemma AllOriginals(idx: seq<Byte>, n: nat)
    requires Decoding.Pick(idx, idx, n, false) == []
    ensures forall i: nat :: i < |idx| ==> idx[i] < n
  {
    hide Decoding.Pick;
    forall i: nat | i < |idx|
      ensures idx[i] < n
    {
      if idx[i] >= n {
        Decoding.PickAtRank(idx, idx, n, false, i);
      }
    }
  }

  ghost function ColumnFor(idx: seq<Byte>, w: seq<Byte>, n: nat): (col: seq<Byte>)
    requires |idx| == |w| == n && 0 < n < 256 && Distinct(idx)
    ensures Meets(col, idx, w, n)
  {
    hide Meets, Distinct;
    assert exists c :: Meets(c, idx, w, n) by {
      var c := Meeting(idx, w, n);
    }
    var col :| Meets(col, idx, w, n);
    col
  }

  /** Any n blocks of one size with different indices are blocks of one code word. */
  lemma WordExists(idx: seq<Byte>, contents: seq<seq<Byte>>, n: nat, bytes: nat) returns (data: seq<seq<Byte>>)
    requires |idx| == |contents| == n && 0 < n < 256 && Distinct(idx)
    requires forall i :: 0 <= i < n ==> |contents[i]| == bytes
    ensures |data| == n && Rectangular(data, bytes)
    ensures forall i: nat :: i < n ==> contents[i] == Encoded(data, bytes, idx[i])
  {
    hide ColumnFor, Distinct, RowSum;
    if n == 1 {
      data := contents;
    } else {
      data := seq(n, j requires 0 <= j < n => seq(bytes, t requires 0 <= t < bytes => ColumnFor(idx, Column(contents, bytes, t), n)[j]));
      forall i: nat | i < n
        ensures contents[i] == Encoded(data, bytes, idx[i])
      {
        forall t | 0 <= t < bytes
          ensures contents[i][t] == Encoded(data, bytes, idx[i])[t]
        {
          var col := ColumnFor(idx, Column(contents, bytes, t), n);
          assert Column(data, bytes, t) == col;
        }
      }
    }
  }

  /** A byte column of a code word that has the given blocks. */
  lemma ColumnMeets(idx: seq<Byte>, data: seq<seq<Byte>>, n: nat, bytes: nat, contents: seq<seq<Byte>>, t: nat)
    requires |idx| == |contents| && |data| == n && 1 < n < 256 && Rectangular(data, bytes) && t < bytes
    requires forall i: nat :: i < |idx| ==> contents[i] == Encoded(data, bytes, idx[i])
    ensures Rectangular(contents, bytes) ==> Meets(Column(data, bytes, t), idx, Column(contents, bytes, t), n)
  {
    hide RowSum;
  }

  lemma MeetsOnce(idx: seq<Byte>, w: seq<Byte>, n: nat, col: seq<Byte>, col': seq<Byte>)
    requires |idx| == |w| == n && 0 < n < 256 && Distinct(idx) && Meets(col, idx, w, n) && Meets(col', idx, w, n)
    ensures col == col'
  {
    hide RowSum, Decoding.Pick, Missing, Points;
    var xs := Decoding.Pick(idx, idx, n, false);
    Decoding.PickLength(idx, idx, n, false);
    Decoding.MissingAsRecovery(idx, n);
    var received := Decoding.Received(idx, n);
    if xs == [] {
      NothingLeft(n, received);
      forall j: nat | j < n
        ensures col[j] == col'[j]
      {
        assert j in Decoding.Received(idx, n);
        var i :| 0 <= i < |idx| && idx[i] == j;
      }
    } else {
      Decoding.GivenIsProblem(idx, n, 256 - n);
      forall m: nat | m < |xs|
        ensures RowSum(xs[m], n, col, n, {}) == RowSum(xs[m], n, col', n, {})
      {
        var i := Decoding.PickFrom(idx, idx, n, false, m);
      }
      ColumnUnique(xs, Missing(n, received), n, received, col, col');
    }
  }

  lemma NothingLeft(n: nat, received: set<nat>)
    requires Missing(n, received) == []
    ensures forall j: nat :: j < n ==> j in received
  {
    F.MissingAll(n, received);
    forall j: nat | j < n
      ensures j in received
    {
      assert j !in Missing(n, received);
    }
  }

  /** n blocks with different indices are blocks of one code word only. */
  lemma WordUnique(idx: seq<Byte>, contents: seq<seq<Byte>>, n: nat, bytes: nat, data: seq<seq<Byte>>, data': seq<seq<Byte>>)
    requires |idx| == |contents| == n && 0 < n < 256 && Distinct(idx) && |data| == |data'| == n
    requires Rectangular(data, bytes) && Rectangular(data', bytes)
    requires forall i: nat :: i < n ==> contents[i] == Encoded(data, bytes, idx[i]) == Encoded(data', bytes, idx[i])
    ensures data == data'
  {
    hide Distinct, Meets, Encoded;
    if n == 1 {
      OnlyBlock(data, bytes, idx[0]);
      OnlyBlock(data', bytes, idx[0]);
    } else {
      forall j, t | 0 <= j < n && 0 <= t < bytes
        ensures data[j][t] == data'[j][t]
      {
        ColumnMeets(idx, data, n, bytes, contents, t);
        ColumnMeets(idx, data', n, bytes, contents, t);
        MeetsOnce(idx, Column(contents, bytes, t), n, Column(data, bytes, t), Column(data', bytes, t));
        assert Column(data, bytes, t)[j] == Column(data', bytes, t)[j];
      }
      forall j | 0 <= j < n
        ensures data[j] == data'[j]
      {
      }
    }
  }

  lemma OnlyBlock(data: seq<seq<Byte>>, bytes: nat, i: Byte)
    requires |data| == 1 && Rectangular(data, bytes)
    ensures Encoded(data, bytes, i) == data[0]
  {
  }

  // ---------------------------------------------------------------- blocks stored by index

  /** The blocks of a map, one after the other. */
  lemma {:induction false} Listed(blocks: map<Byte, seq<Byte>>) returns (idx: seq<Byte>, contents: seq<seq<Byte>>)
    ensures |idx| == |contents| == |blocks| && Distinct(idx)
    ensures forall i :: 0 <= i < |idx| ==> idx[i] in blocks && contents[i] == blocks[idx[i]]
    ensures forall k :: k in blocks ==> k in idx
    decreases |blocks|
  {
    if blocks == map[] {
      idx, contents := [], [];
    } else {
      var k :| k in blocks;
      Smaller(blocks, k);
      idx, contents := Listed(blocks - {k});
      idx, contents := idx + [k], contents + [blocks[k]];
    }
  }

  lemma {:induction false} FreeIndex(taken: set<Byte>, n: nat) returns (k: Byte)
    requires |taken| < n <= 256
    ensures k < n && k !in taken
    decreases n
  {
    var last: Byte := n - 1;
    if last in taken {
      k := FreeIndex(taken - {last}, n - 1);
    } else {
      k := last;
    }
  }

  /** At most n blocks of one size stored by index are blocks of some code word. */
  lemma {:induction false} WordOf(blocks: map<Byte, seq<Byte>>, n: nat, bytes: nat) returns (data: seq<seq<Byte>>)
    requires |blocks| <= n && 0 < n < 256 && forall k :: k in blocks ==> |blocks[k]| == bytes
    ensures |data| == n && Rectangular(data, bytes) && forall k :: k in blocks ==> blocks[k] == Encoded(data, bytes, k)
    decreases n - |blocks|
  {
    hide Rectangular, Encoded;
    if |blocks| < n {
      assert |blocks.Keys| == |blocks|;
      var k := FreeIndex(blocks.Keys, n);
      var zeros: seq<Byte> := seq(bytes, t => 0);
      Larger(blocks, k, zeros);
      data := WordOf(blocks[k := zeros], n, bytes);
      forall i | i in blocks
        ensures blocks[i] == Encoded(data, bytes, i)
      {
        assert blocks[k := zeros][i] == blocks[i];
      }
    } else {
      var idx, contents := Listed(blocks);
      data := WordExists(idx, contents, n, bytes);
    }
  }

  /** n blocks of one size stored by index belong to one code word only. */
  lemma WordOnce(blocks: map<Byte, seq<Byte>>, n: nat, bytes: nat, data: seq<seq<Byte>>, data': seq<seq<Byte>>)
    requires |blocks| == n && 0 < n < 256 && |data| == |data'| == n && Rectangular(data, bytes) && Rectangular(data', bytes)
    requires forall k :: k in blocks ==> blocks[k] == Encoded(data, bytes, k) == Encoded(data', bytes, k)
    ensures data == data'
  {
    hide Rectangular, Encoded;
    var idx, contents := Listed(blocks);
    WordUnique(idx, contents, n, bytes, data, data');
  }
}
