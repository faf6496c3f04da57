/** The Module-LWE identity behind the commitment:
    with t = A.s + e, u = A^T.r + e1 and v = <t, r> + e2 + m,
      v - <s, u>  =  m + (<e, r> + e2 - <s, e1>)   in R_q^k. */
module ModuleLwe {
  import opened Sums
  import opened Modular
  import opened Negacyclic
  import opened PolyRing
  import opened RingArithmetic

  function Transpose(A: seq<seq<Poly>>, n: nat): (T: seq<seq<Poly>>)
    requires IsMatrix(A, |A|, n)
    ensures IsMatrix(T, |A|, n)
    ensures forall i, j :: 0 <= i < |A| && 0 <= j < |A| ==> T[i][j] == A[j][i]
  {
    seq(|A|, i requires 0 <= i < |A| => seq(|A|, j requires 0 <= j < |A| => A[j][i]))
  }

  // ---- the same products over the integers ----

  // coefficients of row.s, before reduction
  function RowZ(row: seq<Poly>, s: seq<Poly>, n: nat, k: nat): (r: seq<int>)
    requires n > 0 && k <= |row| == |s| && IsVector(row, |row|, n) && IsVector(s, |s|, n)
    ensures |r| == n
  {
    seq(n, c => DotCoef(row, s, n, c, k))
  }

  function MatVecZ(A: seq<seq<Poly>>, s: seq<Poly>, n: nat): (r: seq<seq<int>>)
    requires n > 0 && IsMatrix(A, |s|, n) && IsVector(s, |s|, n)
    ensures IsVector(r, |s|, n)
  {
    seq(|s|, i requires 0 <= i < |s| => RowZ(A[i], s, n, |s|))
  }

  function VecAddZ(x: seq<seq<int>>, y: seq<seq<int>>, n: nat): (r: seq<seq<int>>)
    requires IsVector(x, |x|, n) && IsVector(y, |x|, n)
    ensures IsVector(r, |x|, n)
  {
    seq(|x|, i requires 0 <= i < |x| => AddZ(x[i], y[i]))
  }

  // ---- inner products are bilinear ----

  lemma MulDistributesLeft(a: seq<int>, b: seq<int>, c: seq<int>, k: int)
    requires |a| == |b| == |c| > 0
    ensures MulCoef(AddZ(a, b), c, k) == MulCoef(a, c, k) + MulCoef(b, c, k)
  {
    MulCommutes(AddZ(a, b), c, k);
    MulDistributes(c, a, b, k);
    MulCommutes(c, a, k);
    MulCommutes(c, b, k);
  }

  lemma {:induction false} DotAddLeft(x: seq<Poly>, y: seq<Poly>, r: seq<Poly>, n: nat, c: int, k: nat)
    requires n > 0 && k <= |x| && IsVector(x, |x|, n) && IsVector(y, |x|, n) && IsVector(r, |x|, n)
    ensures DotCoef(VecAddZ(x, y, n), r, n, c, k) == DotCoef(x, r, n, c, k) + DotCoef(y, r, n, c, k)
  {
    if k > 0 {
      DotAddLeft(x, y, r, n, c, k - 1);
      MulDistributesLeft(x[k - 1], y[k - 1], r[k - 1], c);
    }
  }

  lemma {:induction false} DotAddRight(s: seq<Poly>, x: seq<Poly>, y: seq<Poly>, n: nat, c: int, k: nat)
    requires n > 0 && k <= |x| && IsVector(x, |x|, n) && IsVector(y, |x|, n) && IsVector(s, |x|, n)
    ensures DotCoef(s, VecAddZ(x, y, n), n, c, k) == DotCoef(s, x, n, c, k) + DotCoef(s, y, n, c, k)
  {
    if k > 0 {
      DotAddRight(s, x, y, n, c, k - 1);
      MulDistributes(s[k - 1], x[k - 1], y[k - 1], c);
    }
  }

  lemma {:induction false} DotCong(x: seq<Poly>, x': seq<Poly>, y: seq<Poly>, y': seq<Poly>, n: nat, c: int,
                                   k: nat, q: int)
    requires n > 0 && k <= |x| && IsVector(x, |x|, n) && IsVector(x', |x|, n)
    requires IsVector(y, |x|, n) && IsVector(y', |x|, n)
    requires forall i :: 0 <= i < |x| ==> CongPoly(x[i], x'[i], q) && CongPoly(y[i], y'[i], q)
    ensures Cong(DotCoef(x, y, n, c, k), DotCoef(x', y', n, c, k), q)
  {
    if k == 0 {
      CongRefl(0, q);
    } else {
      DotCong(x, x', y, y', n, c, k - 1, q);
      MulCong(x[k - 1], x'[k - 1], y[k - 1], y'[k - 1], c, q);
      CongAdd(DotCoef(x, y, n, c, k - 1), DotCoef(x', y', n, c, k - 1),
              MulCoef(x[k - 1], y[k - 1], c), MulCoef(x'[k - 1], y'[k - 1], c), q);
    }
  }

  // ---- <A.s, r> = <s, A^T.r> ----

  // the (i, j) term of the double sum, zero outside the matrix
  function Grid(A: seq<seq<Poly>>, s: seq<Poly>, r: seq<Poly>, n: nat, c: int, i: int, j: int): int
    requires n > 0 && IsMatrix(A, |A|, n) && IsVector(s, |A|, n) && IsVector(r, |A|, n)
  {
    if 0 <= i < |A| && 0 <= j < |A| then MulCoef(MulZ(A[i][j], s[j]), r[i], c) else 0
  }

  // (a * s) * r = s * (a * r)
  lemma MoveFactor(a: seq<int>, s: seq<int>, r: seq<int>, c: int)
    requires |a| == |s| == |r| > 0
    ensures MulCoef(MulZ(a, s), r, c) == MulCoef(s, MulZ(a, r), c)
  {
    forall k | 0 <= k < |a| ensures MulZ(a, s)[k] == MulZ(s, a)[k] { MulCommutes(a, s, k); }
    assert MulZ(a, s) == MulZ(s, a);
    MulAssociates(s, a, r, c);
  }

  lemma {:induction false} MulZeroLeft(n: nat, b: seq<int>, c: int)
    requires n == |b| > 0
    ensures MulCoef(seq(n, i => 0), b, c) == 0
  {
    var z := seq(n, i => 0);
    var f := (i: int) => Ext(z, i) * Ext(b, c - i);
    forall i | 0 <= i < n ensures f(i) == 0 { assert z[i] == 0; }
    SumZero(f, n);
    SumExt(f, i => Ext(z, i) * Ext(b, c - i), n);
  }

  lemma {:induction false} RowTimes(A: seq<seq<Poly>>, s: seq<Poly>, r: seq<Poly>, n: nat, c: int, i: nat, k: nat)
    requires n > 0 && IsMatrix(A, |A|, n) && IsVector(s, |A|, n) && IsVector(r, |A|, n)
    requires i < |A| && k <= |A|
    ensures MulCoef(RowZ(A[i], s, n, k), r[i], c) == Sum(j => Grid(A, s, r, n, c, i, j), k)
  {
    if k == 0 {
      MulZeroLeft(n, r[i], c);
      assert RowZ(A[i], s, n, 0) == seq(n, i => 0);
    } else {
      RowTimes(A, s, r, n, c, i, k - 1);
      assert RowZ(A[i], s, n, k) == AddZ(RowZ(A[i], s, n, k - 1), MulZ(A[i][k - 1], s[k - 1]));
      MulDistributesLeft(RowZ(A[i], s, n, k - 1), MulZ(A[i][k - 1], s[k - 1]), r[i], c);
      SumExt(j => Grid(A, s, r, n, c, i, j), j => Grid(A, s, r, n, c, i, j), k - 1);
    }
  }

  lemma {:induction false} TimesColumn(A: seq<seq<Poly>>, s: seq<Poly>, r: seq<Poly>, n: nat, c: int, j: nat, k: nat)
    requires n > 0 && IsMatrix(A, |A|, n) && IsVector(s, |A|, n) && IsVector(r, |A|, n)
    requires j < |A| && k <= |A|
    ensures MulCoef(s[j], RowZ(Transpose(A, n)[j], r, n, k), c) == Sum(i => Grid(A, s, r, n, c, i, j), k)
  {
    var column := Transpose(A, n)[j];
    if k == 0 {
      var z := seq(n, i => 0);
      MulZeroLeft(n, s[j], c);
      MulCommutes(s[j], z, c);
      assert RowZ(column, r, n, 0) == z;
    } else {
      TimesColumn(A, s, r, n, c, j, k - 1);
      assert RowZ(column, r, n, k) == AddZ(RowZ(column, r, n, k - 1), MulZ(column[k - 1], r[k - 1]));
      MulDistributes(s[j], RowZ(column, r, n, k - 1), MulZ(column[k - 1], r[k - 1]), c);
      MoveFactor(A[k - 1][j], s[j], r[k - 1], c);
      SumExt(i => Grid(A, s, r, n, c, i, j), i => Grid(A, s, r, n, c, i, j), k - 1);
    }
  }

  function RowSum(A: seq<seq<Poly>>, s: seq<Poly>, r: seq<Poly>, n: nat, c: int, i: int): int
    requires n > 0 && IsMatrix(A, |A|, n) && IsVector(s, |A|, n) && IsVector(r, |A|, n)
  {
    Sum(j => Grid(A, s, r, n, c, i, j), |A|)
  }

  function ColumnSum(A: seq<seq<Poly>>, s: seq<Poly>, r: seq<Poly>, n: nat, c: int, j: int): int
    requires n > 0 && IsMatrix(A, |A|, n) && IsVector(s, |A|, n) && IsVector(r, |A|, n)
  {
    Sum(i => Grid(A, s, r, n, c, i, j), |A|)
  }

  lemma LastRow(A: seq<seq<Poly>>, s: seq<Poly>, r: seq<Poly>, n: nat, c: int, i: nat)
    requires n > 0 && IsMatrix(A, |A|, n) && IsVector(s, |A|, n) && IsVector(r, |A|, n) && i < |A|
    ensures MulCoef(MatVecZ(A, s, n)[i], r[i], c) == RowSum(A, s, r, n, c, i)
  {
    RowTimes(A, s, r, n, c, i, |A|);
    SumExt(j => Grid(A, s, r, n, c, i, j), j => Grid(A, s, r, n, c, i, j), |A|);
  }

  lemma {:induction false} LeftIsGridSum(A: seq<seq<Poly>>, s: seq<Poly>, r: seq<Poly>, n: nat, c: int, k: nat)
    requires n > 0 && IsMatrix(A, |A|, n) && IsVector(s, |A|, n) && IsVector(r, |A|, n) && k <= |A|
    ensures DotCoef(MatVecZ(A, s, n), r, n, c, k) == Sum(i => RowSum(A, s, r, n, c, i), k)
  {
    if k > 0 {
      LeftIsGridSum(A, s, r, n, c, k - 1);
      LastRow(A, s, r, n, c, k - 1);
      SumExt(i => RowSum(A, s, r, n, c, i), i => RowSum(A, s, r, n, c, i), k - 1);
    }
  }

  lemma LastColumn(A: seq<seq<Poly>>, s: seq<Poly>, r: seq<Poly>, n: nat, c: int, j: nat)
    requires n > 0 && IsMatrix(A, |A|, n) && IsVector(s, |A|, n) && IsVector(r, |A|, n) && j < |A|
    ensures MulCoef(s[j], MatVecZ(Transpose(A, n), r, n)[j], c) == ColumnSum(A, s, r, n, c, j)
  {
    TimesColumn(A, s, r, n, c, j, |A|);
    SumExt(i => Grid(A, s, r, n, c, i, j), i => Grid(A, s, r, n, c, i, j), |A|);
  }

  lemma {:induction false} RightIsGridSum(A: seq<seq<Poly>>, s: seq<Poly>, r: seq<Poly>, n: nat, c: int, k: nat)
    requires n > 0 && IsMatrix(A, |A|, n) && IsVector(s, |A|, n) && IsVector(r, |A|, n) && k <= |A|
    ensures DotCoef(s, MatVecZ(Transpose(A, n), r, n), n, c, k) == Sum(j => ColumnSum(A, s, r, n, c, j), k)
  {
    if k > 0 {
      RightIsGridSum(A, s, r, n, c, k - 1);
      LastColumn(A, s, r, n, c, k - 1);
      SumExt(j => ColumnSum(A, s, r, n, c, j), j => ColumnSum(A, s, r, n, c, j), k - 1);
    }
  }

  lemma GridSwap(A: seq<seq<Poly>>, s: seq<Poly>, r: seq<Poly>, n: nat, c: int)
    requires n > 0 && IsMatrix(A, |A|, n) && IsVector(s, |A|, n) && IsVector(r, |A|, n)
    ensures Sum(i => RowSum(A, s, r, n, c, i), |A|) == Sum(j => ColumnSum(A, s, r, n, c, j), |A|)
  {
    var k := |A|;
    var f := (i: int, j: int) => Grid(A, s, r, n, c, i, j);
    var rows := (i: int) => Sum(j => f(i, j), k);
    var columns := (j: int) => Sum(i => f(i, j), k);
    SumSwap(f, k, k);
    forall i | 0 <= i < k
      ensures RowSum(A, s, r, n, c, i) == rows(i)
    {
      SumExt(j => Grid(A, s, r, n, c, i, j), j => f(i, j), k);
    }
    SumExt(i => RowSum(A, s, r, n, c, i), rows, k);
    SumExt(rows, i => Sum(j => f(i, j), k), k);
    forall j | 0 <= j < k
      ensures ColumnSum(A, s, r, n, c, j) == columns(j)
    {
      SumExt(i => Grid(A, s, r, n, c, i, j), i => f(i, j), k);
    }
    SumExt(j => ColumnSum(A, s, r, n, c, j), columns, k);
    SumExt(columns, j => Sum(i => f(i, j), k), k);
  }

  lemma Adjoint(A: seq<seq<Poly>>, s: seq<Poly>, r: seq<Poly>, n: nat, c: int)
    requires n > 0 && IsMatrix(A, |A|, n) && IsVector(s, |A|, n) && IsVector(r, |A|, n)
    ensures DotCoef(MatVecZ(A, s, n), r, n, c, |A|) == DotCoef(s, MatVecZ(Transpose(A, n), r, n), n, c, |A|)
  {
    LeftIsGridSum(A, s, r, n, c, |A|);
    RightIsGridSum(A, s, r, n, c, |A|);
    GridSwap(A, s, r, n, c);
  }

  // ---- the identity ----

  // over the integers, the two A-terms cancel exactly
  lemma Cancellation(A: seq<seq<Poly>>, s: seq<Poly>, e: seq<Poly>, r: seq<Poly>, e1: seq<Poly>, n: nat, c: int)
    requires n > 0 && IsMatrix(A, |A|, n) && IsVector(s, |A|, n) && IsVector(e, |A|, n)
    requires IsVector(r, |A|, n) && IsVector(e1, |A|, n)
    ensures DotCoef(VecAddZ(MatVecZ(A, s, n), e, n), r, n, c, |A|)
            - DotCoef(s, VecAddZ(MatVecZ(Transpose(A, n), r, n), e1, n), n, c, |A|)
         == DotCoef(e, r, n, c, |A|) - DotCoef(s, e1, n, c, |A|)
  {
    DotAddLeft(MatVecZ(A, s, n), e, r, n, c, |A|);
    DotAddRight(s, MatVecZ(Transpose(A, n), r, n), e1, n, c, |A|);
    Adjoint(A, s, r, n, c);
  }

  lemma MatVecCong(A: seq<seq<Poly>>, s: seq<Poly>, e: seq<Poly>, n: nat, q: int)
    requires n > 0 && q > 0 && IsMatrix(A, |s|, n) && IsVector(s, |s|, n) && IsVector(e, |s|, n)
    ensures forall i :: 0 <= i < |s| ==>
              CongPoly(MatVecAdd(A, s, e, n, q)[i], VecAddZ(MatVecZ(A, s, n), e, n)[i], q)
  {
    forall i | 0 <= i < |s|
      ensures CongPoly(MatVecAdd(A, s, e, n, q)[i], VecAddZ(MatVecZ(A, s, n), e, n)[i], q)
    {
      var row := RowZ(A[i], s, n, |s|);
      assert Dot(A[i], s, n, q) == Reduce(row, q);
      ReduceCong(row, q);
      CongPolyRefl(e[i], q);
      AddCong(Dot(A[i], s, n, q), e[i], q);
      AddZCong(Dot(A[i], s, n, q), row, e[i], e[i], q);
      CongPolyTrans(MatVecAdd(A, s, e, n, q)[i], AddZ(Dot(A[i], s, n, q), e[i]), AddZ(row, e[i]), q);
    }
  }

  /** v = <t, r> + e2 + m, added in the order of the commitment kernel. */
  function MaskedMessage(t: seq<Poly>, r: seq<Poly>, e2: Poly, m: Poly, n: nat, q: int): (v: Poly)
    requires n > 0 && q > 0 && IsVector(t, |t|, n) && IsVector(r, |t|, n) && |e2| == |m| == n
    ensures IsPoly(v, n, q)
  {
    Add(Add(Dot(t, r, n, q), e2, q), m, q)
  }

  // the integer residual <e, r> + e2 - <s, e1>
  function ResidualZ(s: seq<Poly>, e: seq<Poly>, r: seq<Poly>, e1: seq<Poly>, e2: Poly, n: nat): (w: seq<int>)
    requires n > 0 && IsVector(s, |s|, n) && IsVector(e, |s|, n) && IsVector(r, |s|, n)
    requires IsVector(e1, |s|, n) && |e2| == n
    ensures |w| == n
  {
    seq(n, c requires 0 <= c < n =>
      DotCoef(e, r, n, c, |s|) + e2[c] - DotCoef(s, e1, n, c, |s|))
  }

  // <x, y> before reduction
  function DotZ(x: seq<Poly>, y: seq<Poly>, n: nat): (r: seq<int>)
    requires n > 0 && IsVector(x, |x|, n) && IsVector(y, |x|, n)
    ensures |r| == n
  {
    seq(n, c => DotCoef(x, y, n, c, |x|))
  }

  lemma DotOf(x: seq<Poly>, x': seq<Poly>, y: seq<Poly>, y': seq<Poly>, n: nat, q: int)
    requires n > 0 && q > 0 && IsVector(x, |x|, n) && IsVector(x', |x|, n)
    requires IsVector(y, |x|, n) && IsVector(y', |x|, n)
    requires forall i :: 0 <= i < |x| ==> CongPoly(x[i], x'[i], q) && CongPoly(y[i], y'[i], q)
    ensures CongPoly(Dot(x, y, n, q), DotZ(x', y', n), q)
  {
    forall c | 0 <= c < n
      ensures Cong(DotZ(x, y, n)[c], DotZ(x', y', n)[c], q)
    {
      DotCong(x, x', y, y', n, c, |x|, q);
    }
    assert Dot(x, y, n, q) == Reduce(DotZ(x, y, n), q);
    ReduceCong(DotZ(x, y, n), q);
    CongPolyTrans(Dot(x, y, n, q), DotZ(x, y, n), DotZ(x', y', n), q);
  }

  lemma VectorCongRefl(v: seq<Poly>, q: int)
    ensures forall i :: 0 <= i < |v| ==> CongPoly(v[i], v[i], q)
  {
    forall i | 0 <= i < |v| ensures CongPoly(v[i], v[i], q) { CongPolyRefl(v[i], q); }
  }

  // v - <s, u>, and the same computation without reductions
  function Unmask(t: seq<Poly>, u: seq<Poly>, s: seq<Poly>, r: seq<Poly>, e2: Poly, m: Poly, n: nat, q: int): (d: Poly)
    requires n > 0 && q > 0 && IsVector(t, |t|, n) && IsVector(u, |t|, n) && IsVector(s, |t|, n)
    requires IsVector(r, |t|, n) && |e2| == |m| == n
    ensures IsPoly(d, n, q)
  {
    Add(MaskedMessage(t, r, e2, m, n, q), Neg(Dot(s, u, n, q), q), q)
  }

  function UnmaskZ(t: seq<seq<int>>, u: seq<seq<int>>, s: seq<Poly>, r: seq<Poly>, e2: Poly, m: Poly,
                   n: nat): (d: seq<int>)
    requires n > 0 && IsVector(t, |t|, n) && IsVector(u, |t|, n) && IsVector(s, |t|, n)
    requires IsVector(r, |t|, n) && |e2| == |m| == n
    ensures |d| == n
  {
    AddZ(AddZ(AddZ(DotZ(t, r, n), e2), m), NegZ(DotZ(s, u, n)))
  }

  lemma UnmaskOf(t: seq<Poly>, t': seq<Poly>, u: seq<Poly>, u': seq<Poly>, s: seq<Poly>, r: seq<Poly>,
                 e2: Poly, m: Poly, n: nat, q: int)
    requires n > 0 && q > 0 && IsVector(t, |t|, n) && IsVector(t', |t|, n) && IsVector(u, |t|, n)
    requires IsVector(u', |t|, n) && IsVector(s, |t|, n) && IsVector(r, |t|, n) && |e2| == |m| == n
    requires forall i :: 0 <= i < |t| ==> CongPoly(t[i], t'[i], q)
    requires forall i :: 0 <= i < |t| ==> CongPoly(u[i], u'[i], q)
    ensures CongPoly(Unmask(t, u, s, r, e2, m, n, q), UnmaskZ(t', u', s, r, e2, m, n), q)
  {
    VectorCongRefl(r, q);
    VectorCongRefl(s, q);
    CongPolyRefl(e2, q);
    CongPolyRefl(m, q);
    DotOf(t, t', r, r, n, q);
    DotOf(s, s, u, u', n, q);
    NegOf(Dot(s, u, n, q), DotZ(s, u', n), q);
    AddOf(Dot(t, r, n, q), DotZ(t', r, n), e2, e2, q);
    AddOf(Add(Dot(t, r, n, q), e2, q), AddZ(DotZ(t', r, n), e2), m, m, q);
    AddOf(MaskedMessage(t, r, e2, m, n, q), AddZ(AddZ(DotZ(t', r, n), e2), m),
          Neg(Dot(s, u, n, q), q), NegZ(DotZ(s, u', n)), q);
  }

  /** What the holder of s computes from (u, v): the message plus the residual. */
  lemma ModuleLweIdentityZ(A: seq<seq<Poly>>, s: seq<Poly>, e: seq<Poly>, r: seq<Poly>, e1: seq<Poly>,
                           e2: Poly, m: Poly, n: nat, q: int)
    requires n > 0 && q > 0 && IsMatrix(A, |A|, n) && IsVector(s, |A|, n) && IsVector(e, |A|, n)
    requires IsVector(r, |A|, n) && IsVector(e1, |A|, n) && |e2| == |m| == n
    ensures var t := MatVecAdd(A, s, e, n, q);
            var u := MatVecAdd(Transpose(A, n), r, e1, n, q);
            CongPoly(Unmask(t, u, s, r, e2, m, n, q), AddZ(m, ResidualZ(s, e, r, e1, e2, n)), q)
  {
    var t, t' := MatVecAdd(A, s, e, n, q), VecAddZ(MatVecZ(A, s, n), e, n);
    var u := MatVecAdd(Transpose(A, n), r, e1, n, q);
    var u' := VecAddZ(MatVecZ(Transpose(A, n), r, n), e1, n);
    MatVecCong(A, s, e, n, q);
    MatVecCong(Transpose(A, n), r, e1, n, q);
    UnmaskOf(t, t', u, u', s, r, e2, m, n, q);
    forall c | 0 <= c < n
      ensures UnmaskZ(t', u', s, r, e2, m, n)[c] == AddZ(m, ResidualZ(s, e, r, e1, e2, n))[c]
    {
      Cancellation(A, s, e, r, e1, n, c);
    }
    assert UnmaskZ(t', u', s, r, e2, m, n) == AddZ(m, ResidualZ(s, e, r, e1, e2, n));
  }

  // <e, r> + e2 - <s, e1> in R_q
  function Residual(s: seq<Poly>, e: seq<Poly>, r: seq<Poly>, e1: seq<Poly>, e2: Poly, n: nat, q: int): (w: Poly)
    requires n > 0 && q > 0 && IsVector(s, |s|, n) && IsVector(e, |s|, n) && IsVector(r, |s|, n)
    requires IsVector(e1, |s|, n) && |e2| == n
    ensures IsPoly(w, n, q)
  {
    Add(Add(Dot(e, r, n, q), e2, q), Neg(Dot(s, e1, n, q), q), q)
  }

  lemma ResidualOf(s: seq<Poly>, e: seq<Poly>, r: seq<Poly>, e1: seq<Poly>, e2: Poly, n: nat, q: int)
    requires n > 0 && q > 0 && IsVector(s, |s|, n) && IsVector(e, |s|, n) && IsVector(r, |s|, n)
    requires IsVector(e1, |s|, n) && |e2| == n
    ensures CongPoly(Residual(s, e, r, e1, e2, n, q), ResidualZ(s, e, r, e1, e2, n), q)
  {
    var er, se1 := Dot(e, r, n, q), Dot(s, e1, n, q);
    var erZ, se1Z := DotZ(e, r, n), DotZ(s, e1, n);
    VectorCongRefl(e, q);
    VectorCongRefl(r, q);
    VectorCongRefl(s, q);
    VectorCongRefl(e1, q);
    CongPolyRefl(e2, q);
    DotOf(e, e, r, r, n, q);
    DotOf(s, s, e1, e1, n, q);
    NegOf(se1, se1Z, q);
    AddOf(er, erZ, e2, e2, q);
    AddOf(Add(er, e2, q), AddZ(erZ, e2), Neg(se1, q), NegZ(se1Z), q);
    assert AddZ(AddZ(erZ, e2), NegZ(se1Z)) == ResidualZ(s, e, r, e1, e2, n);
  }

  /** The identity inside R_q: v - <s, u> = m + (<e, r> + e2 - <s, e1>). */
  lemma ModuleLweIdentity(A: seq<seq<Poly>>, s: seq<Poly>, e: seq<Poly>, r: seq<Poly>, e1: seq<Poly>,
                          e2: Poly, m: Poly, n: nat, q: int)
    requires n > 0 && q > 0 && IsMatrix(A, |A|, n) && IsVector(s, |A|, n) && IsVector(e, |A|, n)
    requires IsVector(r, |A|, n) && IsVector(e1, |A|, n) && |e2| == |m| == n
    ensures var t := MatVecAdd(A, s, e, n, q);
            var u := MatVecAdd(Transpose(A, n), r, e1, n, q);
            Unmask(t, u, s, r, e2, m, n, q) == Add(m, Residual(s, e, r, e1, e2, n, q), q)
  {
    var left := Unmask(MatVecAdd(A, s, e, n, q), MatVecAdd(Transpose(A, n), r, e1, n, q), s, r, e2, m, n, q);
    var right := Add(m, Residual(s, e, r, e1, e2, n, q), q);
    var middle := AddZ(m, ResidualZ(s, e, r, e1, e2, n));
    ModuleLweIdentityZ(A, s, e, r, e1, e2, m, n, q);
    ResidualOf(s, e, r, e1, e2, n, q);
    CongPolyRefl(m, q);
    AddOf(m, m, Residual(s, e, r, e1, e2, n, q), ResidualZ(s, e, r, e1, e2, n), q);
    CongPolySym(right, middle, q);
    CongPolyTrans(left, middle, right, q);
    CongPolyEqual(left, right, n, q);
  }

  // ---- the residual is small ----

  /** The representative of a residue closest to zero. */
  function Centered(x: int, q: int): int {
    if x > q / 2 then x - q else x
  }

  function CenteredPoly(a: Poly, q: int): (r: seq<int>)
    ensures |r| == |a|
  {
    seq(|a|, i requires 0 <= i < |a| => Centered(a[i], q))
  }

  // every coefficient is an integer of [-eta, eta], taken modulo q
  ghost predicate Small(a: Poly, eta: int, q: int) {
    forall i :: 0 <= i < |a| ==> -eta <= Centered(a[i], q) <= eta
  }

  ghost predicate SmallVector(v: seq<Poly>, eta: int, q: int) {
    forall i :: 0 <= i < |v| ==> Small(v[i], eta, q)
  }

  function CenteredVector(v: seq<Poly>, q: int): (r: seq<seq<int>>)
    ensures |r| == |v|
    ensures forall i :: 0 <= i < |v| ==> r[i] == CenteredPoly(v[i], q)
  {
    seq(|v|, i requires 0 <= i < |v| => CenteredPoly(v[i], q))
  }

  lemma CenteredCong(a: Poly, q: int)
    ensures CongPoly(a, CenteredPoly(a, q), q)
  {
    forall i | 0 <= i < |a|
      ensures Cong(a[i], CenteredPoly(a, q)[i], q)
    {
      if a[i] > q / 2 { MultipleCong(a[i], a[i] - q, 1, q); } else { CongRefl(a[i], q); }
    }
  }

  lemma {:induction false} DotBounded(x: seq<Poly>, y: seq<Poly>, n: nat, c: int, k: nat, eta: int)
    requires n > 0 && k <= |x| && IsVector(x, |x|, n) && IsVector(y, |x|, n) && eta >= 0
    requires forall i :: 0 <= i < |x| ==> Bounded(x[i], eta) && Bounded(y[i], eta)
    ensures -(k * (n * (eta * eta))) <= DotCoef(x, y, n, c, k) <= k * (n * (eta * eta))
  {
    if k > 0 {
      DotBounded(x, y, n, c, k - 1, eta);
      MulBounded(x[k - 1], y[k - 1], eta, eta, c);
      assert k * (n * (eta * eta)) == (k - 1) * (n * (eta * eta)) + n * (eta * eta);
    }
  }

  /** The residual lifts to integers of size at most 2*k*n*eta^2 + eta. */
  lemma ResidualBounded(s: seq<Poly>, e: seq<Poly>, r: seq<Poly>, e1: seq<Poly>, e2: Poly, n: nat, q: int, eta: int)
    requires n > 0 && IsVector(s, |s|, n) && IsVector(e, |s|, n) && IsVector(r, |s|, n)
    requires IsVector(e1, |s|, n) && |e2| == n && eta >= 0
    requires SmallVector(s, eta, q) && SmallVector(e, eta, q) && SmallVector(r, eta, q)
    requires SmallVector(e1, eta, q) && Small(e2, eta, q)
    ensures var w := ResidualZ(CenteredVector(s, q), CenteredVector(e, q), CenteredVector(r, q),
                               CenteredVector(e1, q), CenteredPoly(e2, q), n);
            Bounded(w, 2 * |s| * (n * (eta * eta)) + eta)
            && CongPoly(ResidualZ(s, e, r, e1, e2, n), w, q)
  {
    var s', e', r', e1', e2' := CenteredVector(s, q), CenteredVector(e, q), CenteredVector(r, q),
                                CenteredVector(e1, q), CenteredPoly(e2, q);
    var k := |s|;
    forall i | 0 <= i < k
      ensures CongPoly(s[i], s'[i], q) && CongPoly(e[i], e'[i], q)
      ensures CongPoly(r[i], r'[i], q) && CongPoly(e1[i], e1'[i], q)
    {
      CenteredCong(s[i], q);
      CenteredCong(e[i], q);
      CenteredCong(r[i], q);
      CenteredCong(e1[i], q);
    }
    CenteredCong(e2, q);
    var w := ResidualZ(s', e', r', e1', e2', n);
    var b := k * (n * (eta * eta));
    assert 2 * |s| * (n * (eta * eta)) == 2 * b;
    forall c | 0 <= c < n
      ensures -(2 * b + eta) <= w[c] <= 2 * b + eta
      ensures Cong(ResidualZ(s, e, r, e1, e2, n)[c], w[c], q)
    {
      DotBounded(e', r', n, c, k, eta);
      DotBounded(s', e1', n, c, k, eta);
      assert -eta <= e2'[c] <= eta;
      DotCong(e, e', r, r', n, c, k, q);
      DotCong(s, s', e1, e1', n, c, k, q);
      CongAdd(DotCoef(e, r, n, c, k), DotCoef(e', r', n, c, k), e2[c], e2'[c], q);
      CongSub(DotCoef(e, r, n, c, k) + e2[c], DotCoef(e', r', n, c, k) + e2'[c],
              DotCoef(s, e1, n, c, k), DotCoef(s', e1', n, c, k), q);
    }
  }
}
