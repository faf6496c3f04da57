/** The ring Z[X]/(X^n + 1) over the integers, before any reduction modulo q.
    A polynomial is the sequence of its n coefficients; continued to every
    exponent, it changes its sign from one period of length n to the next. */
module Negacyclic {
  import opened Sums
  import opened Modular

  /** The coefficients continued to all integer exponents.  Because X^n = -1,
      moving an exponent by n flips the sign. */
  function Ext(a: seq<int>, t: int): int
    requires |a| > 0
    decreases if t < 0 then |a| - t else t
  {
    if t < 0 then -Ext(a, t + |a|)
    else if t >= |a| then -Ext(a, t - |a|)
    else a[t]
  }

  /** Coefficient of X^k in a * b: all products a_i * b_j with i + j = k,
      where an exponent that leaves [0, n) comes back with its sign flipped. */
  function MulCoef(a: seq<int>, b: seq<int>, k: int): int
    requires |a| == |b| > 0
  {
    Sum(i => Ext(a, i) * Ext(b, k - i), |a|)
  }

  function MulZ(a: seq<int>, b: seq<int>): (r: seq<int>)
    requires |a| == |b| > 0
    ensures |r| == |a|
  {
    seq(|a|, k => MulCoef(a, b, k))
  }

  function AddZ(a: seq<int>, b: seq<int>): (r: seq<int>)
    requires |a| == |b|
    ensures |r| == |a|
  {
    seq(|a|, i requires 0 <= i < |a| => a[i] + b[i])
  }

  ghost predicate AntiPeriodic(f: int -> int, n: nat) {
    forall x {:trigger f(x + n)} :: f(x + n) == -f(x)
  }

  lemma AntiPeriodicAt(f: int -> int, n: nat, x: int)
    requires AntiPeriodic(f, n)
    ensures f(x + n) == -f(x)
  {
  }

  lemma ExtAntiPeriodic(a: seq<int>, t: int)
    requires |a| > 0
    ensures Ext(a, t + |a|) == -Ext(a, t)
  {
  }

  // an anti-periodic function is Ext of its first n values
  lemma {:induction false} ExtUnique(a: seq<int>, f: int -> int, t: int)
    requires |a| > 0 && AntiPeriodic(f, |a|)
    requires forall i :: 0 <= i < |a| ==> a[i] == f(i)
    ensures Ext(a, t) == f(t)
    decreases if t < 0 then |a| - t else t
  {
    if t < 0 {
      ExtUnique(a, f, t + |a|);
      AntiPeriodicAt(f, |a|, t);
    } else if t >= |a| {
      var s := t - |a|;
      ExtUnique(a, f, s);
      AntiPeriodicAt(f, |a|, s);
    }
  }

  lemma MulCoefAntiPeriodic(a: seq<int>, b: seq<int>, k: int)
    requires |a| == |b| > 0
    ensures MulCoef(a, b, k + |a|) == -MulCoef(a, b, k)
  {
    var n := |a|;
    var f := (i: int) => Ext(a, i) * Ext(b, k - i);
    var g := (i: int) => Ext(a, i) * Ext(b, k + n - i);
    forall i | 0 <= i < n
      ensures g(i) == -1 * f(i)
    {
      ExtAntiPeriodic(b, k - i);
      assert k - i + n == k + n - i;
    }
    SumScale(f, g, -1, n);
    SumExt(f, i => Ext(a, i) * Ext(b, k - i), n);
    SumExt(g, i => Ext(a, i) * Ext(b, k + n - i), n);
  }

  // the continued product is given by the same sum at every exponent
  lemma ExtMul(a: seq<int>, b: seq<int>, t: int)
    requires |a| == |b| > 0
    ensures Ext(MulZ(a, b), t) == MulCoef(a, b, t)
  {
    var f := (k: int) => MulCoef(a, b, k);
    forall x ensures f(x + |a|) == -f(x) { MulCoefAntiPeriodic(a, b, x); }
    ExtUnique(MulZ(a, b), f, t);
  }

  lemma {:induction false} ExtAdd(a: seq<int>, b: seq<int>, t: int)
    requires |a| == |b| > 0
    ensures Ext(AddZ(a, b), t) == Ext(a, t) + Ext(b, t)
    decreases if t < 0 then |a| - t else t
  {
    if t < 0 { ExtAdd(a, b, t + |a|); } else if t >= |a| { ExtAdd(a, b, t - |a|); }
  }

  // the product of two anti-periodic factors is periodic
  lemma TermPeriodic(a: seq<int>, b: seq<int>, i: int, k: int)
    requires |a| == |b| > 0
    ensures Ext(a, i + |a|) * Ext(b, k - (i + |a|)) == Ext(a, i) * Ext(b, k - i)
  {
    ExtAntiPeriodic(a, i);
    ExtAntiPeriodic(b, k - i - |a|);
    assert k - i - |a| == k - (i + |a|);
    assert -Ext(a, i) * Ext(b, k - (i + |a|)) == Ext(a, i) * -Ext(b, k - (i + |a|));
  }

  lemma MulCommutes(a: seq<int>, b: seq<int>, k: int)
    requires |a| == |b| > 0
    ensures MulCoef(a, b, k) == MulCoef(b, a, k)
  {
    var n := |a|;
    var f := (i: int) => Ext(a, i) * Ext(b, k - i);
    forall i ensures f(i + n) == f(i) { TermPeriodic(a, b, i, k); }
    SumReflect(f, k, n);
    SumExt(f, i => Ext(a, i) * Ext(b, k - i), n);
    SumExt(x => f(k - x), i => Ext(b, i) * Ext(a, k - i), n);
  }

  lemma MulDistributes(a: seq<int>, b: seq<int>, c: seq<int>, k: int)
    requires |a| == |b| == |c| > 0
    ensures MulCoef(a, AddZ(b, c), k) == MulCoef(a, b, k) + MulCoef(a, c, k)
  {
    var f := (i: int) => Ext(a, i) * Ext(b, k - i);
    var g := (i: int) => Ext(a, i) * Ext(c, k - i);
    var h := (i: int) => Ext(a, i) * Ext(AddZ(b, c), k - i);
    forall i | 0 <= i < |a|
      ensures h(i) == f(i) + g(i)
    {
      ExtAdd(b, c, k - i);
    }
    SumAdd(f, g, h, |a|);
    SumExt(f, i => Ext(a, i) * Ext(b, k - i), |a|);
    SumExt(g, i => Ext(a, i) * Ext(c, k - i), |a|);
    SumExt(h, i => Ext(a, i) * Ext(AddZ(b, c), k - i), |a|);
  }

  // the inner sum of (a * b) * c for a fixed exponent i of a is (b * c) at k - i
  lemma AssocInner(b: seq<int>, c: seq<int>, i: int, k: int)
    requires |b| == |c| > 0
    ensures Sum(j => Ext(b, j - i) * Ext(c, k - j), |b|) == MulCoef(b, c, k - i)
  {
    var n := |b|;
    var g := Terms(b, c, k - i);
    TermsPeriodic(b, c, k - i);
    var target := (j: int) => Ext(b, j - i) * Ext(c, k - j);
    forall j | 0 <= j < n ensures target(j) == g(j + -i) { ShiftedTerm(b, c, i, k, j); }
    SumShifted(g, target, -i, n);
    SumExt(target, j => Ext(b, j - i) * Ext(c, k - j), n);
    CoefOfTerms(b, c, k - i);
  }

  lemma ShiftedTerm(b: seq<int>, c: seq<int>, i: int, k: int, j: int)
    requires |b| == |c| > 0
    ensures Terms(b, c, k - i)(j + -i) == Ext(b, j - i) * Ext(c, k - j)
  {
    assert (k - i) - (j + -i) == k - j && j + -i == j - i;
  }

  // the terms of one coefficient of a * b
  function Terms(a: seq<int>, b: seq<int>, k: int): int -> int
    requires |a| == |b| > 0
  {
    i => Ext(a, i) * Ext(b, k - i)
  }

  lemma CoefOfTerms(a: seq<int>, b: seq<int>, k: int)
    requires |a| == |b| > 0
    ensures MulCoef(a, b, k) == Sum(Terms(a, b, k), |a|)
  {
    SumExt(Terms(a, b, k), i => Ext(a, i) * Ext(b, k - i), |a|);
  }

  lemma ExtMulTerms(a: seq<int>, b: seq<int>, t: int)
    requires |a| == |b| > 0
    ensures Ext(MulZ(a, b), t) == Sum(Terms(a, b, t), |a|)
  {
    ExtMul(a, b, t);
    CoefOfTerms(a, b, t);
  }

  lemma TermsPeriodic(a: seq<int>, b: seq<int>, k: int)
    requires |a| == |b| > 0
    ensures Periodic(Terms(a, b, k), |a|)
  {
    var f, n := Terms(a, b, k), |a|;
    forall i ensures f(i + n) == f(i) { TermPeriodic(a, b, i, k); }
  }

  // one term of the triple sum a_i * b_(j-i) * c_(k-j)
  function Triple(a: seq<int>, b: seq<int>, c: seq<int>, k: int, i: int, j: int): int
    requires |a| == |b| == |c| > 0
  {
    Ext(a, i) * (Ext(b, j - i) * Ext(c, k - j))
  }

  lemma TripleLeft(a: seq<int>, b: seq<int>, c: seq<int>, k: int, i: int, j: int)
    requires |a| == |b| == |c| > 0
    ensures Triple(a, b, c, k, i, j) == Ext(c, k - j) * Terms(a, b, j)(i)
  {
    Regroup(Ext(a, i), Ext(b, j - i), Ext(c, k - j));
  }

  lemma AssocLeft(a: seq<int>, b: seq<int>, c: seq<int>, k: int, j: int, column: int -> int)
    requires |a| == |b| == |c| > 0
    requires forall i :: column(i) == Triple(a, b, c, k, i, j)
    ensures Ext(MulZ(a, b), j) * Ext(c, k - j) == Sum(column, |a|)
  {
    var terms := Terms(a, b, j);
    forall i | 0 <= i < |a| ensures column(i) == Ext(c, k - j) * terms(i) { TripleLeft(a, b, c, k, i, j); }
    SumScale(terms, column, Ext(c, k - j), |a|);
    ExtMulTerms(a, b, j);
    Swap(Ext(c, k - j), Sum(terms, |a|));
  }

  lemma AssocRight(a: seq<int>, b: seq<int>, c: seq<int>, k: int, i: int, row: int -> int)
    requires |a| == |b| == |c| > 0
    requires forall j :: row(j) == Triple(a, b, c, k, i, j)
    ensures Ext(a, i) * Ext(MulZ(b, c), k - i) == Sum(row, |a|)
  {
    var term := (j: int) => Ext(b, j - i) * Ext(c, k - j);
    SumScale(term, row, Ext(a, i), |a|);
    SumExt(term, j => Ext(b, j - i) * Ext(c, k - j), |a|);
    AssocInner(b, c, i, k);
    ExtMul(b, c, k - i);
  }

  lemma Swap(x: int, y: int)
    ensures x * y == y * x
  {
  }

  lemma Regroup(x: int, y: int, z: int)
    ensures x * (y * z) == z * (x * y)
  {
  }

  lemma ColumnOf(a: seq<int>, b: seq<int>, c: seq<int>, k: int, f: (int, int) -> int, j: int)
    requires |a| == |b| == |c| > 0 && forall i :: f(i, j) == Triple(a, b, c, k, i, j)
    ensures Ext(MulZ(a, b), j) * Ext(c, k - j) == Sum(i => f(i, j), |a|)
  {
    var column := (i: int) => f(i, j);
    AssocLeft(a, b, c, k, j, column);
    SumExt(column, i => f(i, j), |a|);
  }

  lemma RowOf(a: seq<int>, b: seq<int>, c: seq<int>, k: int, f: (int, int) -> int, i: int)
    requires |a| == |b| == |c| > 0 && forall j :: f(i, j) == Triple(a, b, c, k, i, j)
    ensures Ext(a, i) * Ext(MulZ(b, c), k - i) == Sum(j => f(i, j), |a|)
  {
    var row := (j: int) => f(i, j);
    AssocRight(a, b, c, k, i, row);
    SumExt(row, j => f(i, j), |a|);
  }

  lemma AssocLeftSum(a: seq<int>, b: seq<int>, c: seq<int>, k: int, f: (int, int) -> int)
    requires |a| == |b| == |c| > 0
    requires forall i, j :: f(i, j) == Triple(a, b, c, k, i, j)
    ensures MulCoef(MulZ(a, b), c, k) == Sum(j => Sum(i => f(i, j), |a|), |a|)
  {
    var n := |a|;
    var columns := (j: int) => Sum(i => f(i, j), n);
    var terms := Terms(MulZ(a, b), c, k);
    forall j | 0 <= j < n
      ensures terms(j) == columns(j)
    {
      ColumnOf(a, b, c, k, f, j);
    }
    SumExt(terms, columns, n);
    SumExt(columns, j => Sum(i => f(i, j), n), n);
    CoefOfTerms(MulZ(a, b), c, k);
  }

  lemma AssocRightSum(a: seq<int>, b: seq<int>, c: seq<int>, k: int, f: (int, int) -> int)
    requires |a| == |b| == |c| > 0
    requires forall i, j :: f(i, j) == Triple(a, b, c, k, i, j)
    ensures MulCoef(a, MulZ(b, c), k) == Sum(i => Sum(j => f(i, j), |a|), |a|)
  {
    var n := |a|;
    var rows := (i: int) => Sum(j => f(i, j), n);
    var terms := Terms(a, MulZ(b, c), k);
    forall i | 0 <= i < n
      ensures terms(i) == rows(i)
    {
      RowOf(a, b, c, k, f, i);
    }
    SumExt(terms, rows, n);
    SumExt(rows, i => Sum(j => f(i, j), n), n);
    CoefOfTerms(a, MulZ(b, c), k);
  }

  lemma MulAssociates(a: seq<int>, b: seq<int>, c: seq<int>, k: int)
    requires |a| == |b| == |c| > 0
    ensures MulCoef(MulZ(a, b), c, k) == MulCoef(a, MulZ(b, c), k)
  {
    var f := (i: int, j: int) => Triple(a, b, c, k, i, j);
    AssocLeftSum(a, b, c, k, f);
    AssocRightSum(a, b, c, k, f);
    SumSwap(f, |a|, |a|);
  }

  // ---- congruence and size ----

  lemma {:induction false} ExtCong(a: seq<int>, a': seq<int>, t: int, q: int)
    requires |a| == |a'| > 0
    requires forall i :: 0 <= i < |a| ==> Cong(a[i], a'[i], q)
    ensures Cong(Ext(a, t), Ext(a', t), q)
    decreases if t < 0 then |a| - t else t
  {
    if t < 0 {
      ExtCong(a, a', t + |a|, q);
      CongNeg(Ext(a, t + |a|), Ext(a', t + |a|), q);
    } else if t >= |a| {
      ExtCong(a, a', t - |a|, q);
      CongNeg(Ext(a, t - |a|), Ext(a', t - |a|), q);
    }
  }

  lemma MulCong(a: seq<int>, a': seq<int>, b: seq<int>, b': seq<int>, k: int, q: int)
    requires |a| == |a'| == |b| == |b'| > 0
    requires forall i :: 0 <= i < |a| ==> Cong(a[i], a'[i], q)
    requires forall i :: 0 <= i < |b| ==> Cong(b[i], b'[i], q)
    ensures Cong(MulCoef(a, b, k), MulCoef(a', b', k), q)
  {
    var f := (i: int) => Ext(a, i) * Ext(b, k - i);
    var g := (i: int) => Ext(a', i) * Ext(b', k - i);
    forall i | 0 <= i < |a|
      ensures Cong(f(i), g(i), q)
    {
      ExtCong(a, a', i, q);
      ExtCong(b, b', k - i, q);
      CongMul(Ext(a, i), Ext(a', i), Ext(b, k - i), Ext(b', k - i), q);
    }
    CongSum(f, g, |a|, q);
    SumExt(f, i => Ext(a, i) * Ext(b, k - i), |a|);
    SumExt(g, i => Ext(a', i) * Ext(b', k - i), |a|);
  }

  ghost predicate Bounded(a: seq<int>, b: int) {
    forall i :: 0 <= i < |a| ==> -b <= a[i] <= b
  }

  lemma {:induction false} ExtBounded(a: seq<int>, b: int, t: int)
    requires |a| > 0 && Bounded(a, b)
    ensures -b <= Ext(a, t) <= b
    decreases if t < 0 then |a| - t else t
  {
    if t < 0 { ExtBounded(a, b, t + |a|); } else if t >= |a| { ExtBounded(a, b, t - |a|); }
  }

  lemma MulMonotone(x: int, y: int, z: int)
    requires x <= y && 0 <= z
    ensures x * z <= y * z && z * x <= z * y
  {
  }

  lemma ProductBounded(x: int, y: int, b: int, c: int)
    requires -b <= x <= b && -c <= y <= c
    ensures -(b * c) <= x * y <= b * c
  {
    var ax := if x < 0 then -x else x;
    var ay := if y < 0 then -y else y;
    MulMonotone(ax, b, ay);
    MulMonotone(ay, c, b);
    assert x * y == ax * ay || x * y == -(ax * ay) by {
      if x < 0 { assert ax * ay == -(x * ay); }
      if y < 0 { assert x * ay == -(x * y); }
    }
  }

  lemma MulBounded(a: seq<int>, b: seq<int>, alpha: int, beta: int, k: int)
    requires |a| == |b| > 0 && Bounded(a, alpha) && Bounded(b, beta)
    ensures -(|a| * (alpha * beta)) <= MulCoef(a, b, k) <= |a| * (alpha * beta)
  {
    var f := (i: int) => Ext(a, i) * Ext(b, k - i);
    forall i | 0 <= i < |a|
      ensures -(alpha * beta) <= f(i) <= alpha * beta
    {
      ExtBounded(a, alpha, i);
      ExtBounded(b, beta, k - i);
      ProductBounded(Ext(a, i), Ext(b, k - i), alpha, beta);
    }
    SumBound(f, |a|, alpha * beta);
    SumExt(f, i => Ext(a, i) * Ext(b, k - i), |a|);
  }
}
