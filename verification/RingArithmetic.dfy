/** The two multiplication algorithms of the commitment engine, and the module
    operations built on them, each proved against the ring of PolyRing. */
module RingArithmetic {
  import opened Sums
  import opened Modular
  import opened Negacyclic
  import opened PolyRing

  // ---- nested loops ----

  // the part of coefficient k contributed by rows 0..i-1
  function Partial(a: seq<int>, b: seq<int>, k: int, i: nat): int
    requires |a| == |b| > 0
  {
    Sum(t => Ext(a, t) * Ext(b, k - t), i)
  }

  // row i has already visited coefficient k after j inner steps
  predicate Visited(n: nat, i: nat, j: nat, k: int) {
    (if k >= i then k - i else k - i + n) < j
  }

  ghost predicate RowsDone(a: seq<int>, b: seq<int>, q: int, i: nat, j: nat, r: seq<int>)
    requires |a| == |b| > 0 && q > 0
  {
    |r| == |a| &&
    forall k :: 0 <= k < |a| ==>
      r[k] == (Partial(a, b, k, i) + if Visited(|a|, i, j, k) then Ext(a, i) * Ext(b, k - i) else 0) % q
  }

  lemma StepMod(x: int, y: int, q: int)
    requires q > 0
    ensures (x % q + y) % q == (x + y) % q
  {
    ModCong(x, q);
    CongRefl(y, q);
    CongAdd(x % q, x, y, y, q);
    CongMod(x % q + y, x + y, q);
  }

  // what the inner statement does to the result vector
  function Touch(a: seq<int>, b: seq<int>, q: int, i: nat, j: nat, r: seq<int>): seq<int>
    requires |a| == |b| == |r| && q > 0 && i < |a| && j < |a|
  {
    var n := |a|;
    if i + j >= n then r[i + j - n := (r[i + j - n] - a[i] * b[j]) % q]
    else r[i + j := (r[i + j] + a[i] * b[j]) % q]
  }

  // the coefficient that step (i, j) changes receives its missing term
  lemma TouchedValue(a: seq<int>, b: seq<int>, q: int, i: nat, j: nat, k: int)
    requires |a| == |b| && q > 0 && i < |a| && j < |a|
    requires k == if i + j >= |a| then i + j - |a| else i + j
    ensures (Partial(a, b, k, i) % q + (if i + j >= |a| then -(a[i] * b[j]) else a[i] * b[j])) % q
         == (Partial(a, b, k, i) + Ext(a, i) * Ext(b, k - i)) % q
  {
    if i + j >= |a| {
      assert Ext(b, k - i) == -b[j];
      assert a[i] * -b[j] == -(a[i] * b[j]);
      StepMod(Partial(a, b, k, i), -(a[i] * b[j]), q);
    } else {
      StepMod(Partial(a, b, k, i), a[i] * b[j], q);
    }
  }

  // one inner step extends the visited set by exactly one coefficient
  lemma InnerStep(a: seq<int>, b: seq<int>, q: int, i: nat, j: nat, r: seq<int>)
    requires |a| == |b| > 0 && q > 0 && i < |a| && j < |a|
    requires RowsDone(a, b, q, i, j, r)
    ensures RowsDone(a, b, q, i, j + 1, Touch(a, b, q, i, j, r))
  {
    var n := |a|;
    var k := if i + j >= n then i + j - n else i + j;
    assert !Visited(n, i, j, k) && Visited(n, i, j + 1, k);
    TouchedValue(a, b, q, i, j, k);
    forall m | 0 <= m < n && m != k
      ensures Visited(n, i, j + 1, m) == Visited(n, i, j, m)
    {
    }
  }

  // row i after j inner steps, starting from r
  function RowLoop(a: seq<int>, b: seq<int>, q: int, i: nat, j: nat, r: seq<int>): (r': seq<int>)
    requires |a| == |b| == |r| && q > 0 && i < |a| && j <= |a|
    ensures |r'| == |a|
  {
    if j == 0 then r else Touch(a, b, q, i, j - 1, RowLoop(a, b, q, i, j - 1, r))
  }

  // the result vector after i rows; a zero coefficient skips its row
  function RowsLoop(a: seq<int>, b: seq<int>, q: int, i: nat): (r: seq<int>)
    requires |a| == |b| && q > 0 && i <= |a|
    ensures |r| == |a|
  {
    if i == 0 then Zero(|a|)
    else if a[i - 1] == 0 then RowsLoop(a, b, q, i - 1)
    else RowLoop(a, b, q, i - 1, |a|, RowsLoop(a, b, q, i - 1))
  }

  // a finished row counts as part of the sum
  lemma RowFinished(a: seq<int>, b: seq<int>, q: int, i: nat, r: seq<int>)
    requires |a| == |b| > 0 && q > 0 && i < |a|
    requires RowsDone(a, b, q, i, |a|, r) || (a[i] == 0 && RowsDone(a, b, q, i, 0, r))
    ensures RowsDone(a, b, q, i + 1, 0, r)
  {
    forall k | 0 <= k < |a|
      ensures r[k] == Partial(a, b, k, i + 1) % q
    {
      assert Visited(|a|, i, |a|, k) && !Visited(|a|, i, 0, k);
      SumExt(t => Ext(a, t) * Ext(b, k - t), t => Ext(a, t) * Ext(b, k - t), i);
    }
  }

  lemma {:induction false} RowLoopDone(a: seq<int>, b: seq<int>, q: int, i: nat, j: nat, r: seq<int>)
    requires |a| == |b| > 0 && q > 0 && i < |a| && j <= |a|
    requires RowsDone(a, b, q, i, 0, r)
    ensures RowsDone(a, b, q, i, j, RowLoop(a, b, q, i, j, r))
  {
    if j > 0 {
      RowLoopDone(a, b, q, i, j - 1, r);
      InnerStep(a, b, q, i, j - 1, RowLoop(a, b, q, i, j - 1, r));
    }
  }

  lemma {:induction false} RowsLoopDone(a: seq<int>, b: seq<int>, q: int, i: nat)
    requires |a| == |b| > 0 && q > 0 && i <= |a|
    ensures RowsDone(a, b, q, i, 0, RowsLoop(a, b, q, i))
  {
    if i == 0 {
      ModSmall(0, q);
    } else {
      var before := RowsLoop(a, b, q, i - 1);
      RowsLoopDone(a, b, q, i - 1);
      if a[i - 1] != 0 { RowLoopDone(a, b, q, i - 1, |a|, before); }
      RowFinished(a, b, q, i - 1, RowsLoop(a, b, q, i));
    }
  }

  /** The nested loops compute the ring product. */
  lemma SchoolbookIsMul(a: Poly, b: Poly, q: int)
    requires |a| == |b| > 0 && q > 0
    ensures RowsLoop(a, b, q, |a|) == Mul(a, b, q)
  {
    var r := RowsLoop(a, b, q, |a|);
    RowsLoopDone(a, b, q, |a|);
    forall k | 0 <= k < |a|
      ensures r[k] == Mul(a, b, q)[k]
    {
      assert !Visited(|a|, |a|, 0, k);
      SumExt(t => Ext(a, t) * Ext(b, k - t), i => Ext(a, i) * Ext(b, k - i), |a|);
    }
  }

  method PolyMulSchoolbook(a: Poly, b: Poly, q: int) returns (r: Poly)
    requires |a| == |b| > 0 && q > 0
    ensures r == Mul(a, b, q)
  {
    var n := |a|;
    var result := new int[n](_ => 0);
    for i := 0 to n
      invariant result[..] == RowsLoop(a, b, q, i)
    {
      var ai := a[i];
      if ai != 0 {
        for j := 0 to n
          invariant result[..] == RowLoop(a, b, q, i, j, RowsLoop(a, b, q, i))
        {
          ghost var before := result[..];
          var idx := i + j;
          if idx >= n {
            result[idx - n] := (result[idx - n] - ai * b[j]) % q;
          } else {
            result[idx] := (result[idx] + ai * b[j]) % q;
          }
          assert result[..] == Touch(a, b, q, i, j, before);
        }
      }
    }
    r := result[..];
    SchoolbookIsMul(a, b, q);
  }

  // ---- convolution and fold ----

  function At(a: seq<int>, i: int): int {
    if 0 <= i < |a| then a[i] else 0
  }

  // coefficient k of the plain product, of degree up to 2n - 2
  function ConvCoef(a: seq<int>, b: seq<int>, k: int): int {
    Sum(i => At(a, i) * At(b, k - i), |a|)
  }

  /** The library's full convolution of two non-empty vectors. */
  function Convolve(a: seq<int>, b: seq<int>): (r: seq<int>)
    requires |a| > 0 && |b| > 0
    ensures |r| == |a| + |b| - 1
  {
    seq(|a| + |b| - 1, k => ConvCoef(a, b, k))
  }

  lemma FoldTerm(a: seq<int>, b: seq<int>, k: int, i: int)
    requires |a| == |b| > 0 && 0 <= k < |a| && 0 <= i < |a|
    ensures At(a, i) * At(b, k - i) == Ext(a, i) * Ext(b, k - i) + At(a, i) * At(b, k + |a| - i)
  {
    var x := a[i];
    if k >= i {
      assert At(b, k + |a| - i) == 0;
    } else {
      var y := b[k - i + |a|];
      assert At(b, k - i) == 0;
      assert At(b, k + |a| - i) == y;
      assert Ext(b, k - i) == -y;
      assert x * -y == -(x * y);
    }
  }

  // the high half folds back with a sign flip
  lemma FoldIdentity(a: seq<int>, b: seq<int>, k: int)
    requires |a| == |b| > 0 && 0 <= k < |a|
    ensures MulCoef(a, b, k) == ConvCoef(a, b, k) - ConvCoef(a, b, k + |a|)
    ensures k == |a| - 1 ==> ConvCoef(a, b, k + |a|) == 0
  {
    var n := |a|;
    var low := (i: int) => At(a, i) * At(b, k - i);
    var high := (i: int) => At(a, i) * At(b, k + n - i);
    var folded := (i: int) => Ext(a, i) * Ext(b, k - i);
    forall i | 0 <= i < n
      ensures low(i) == folded(i) + high(i)
    {
      FoldTerm(a, b, k, i);
    }
    SumAdd(folded, high, low, n);
    SumExt(low, i => At(a, i) * At(b, k - i), n);
    SumExt(high, i => At(a, i) * At(b, k + n - i), n);
    SumExt(folded, i => Ext(a, i) * Ext(b, k - i), n);
    if k == n - 1 {
      forall i | 0 <= i < n ensures high(i) == 0 { assert At(b, k + n - i) == 0; }
      SumZero(high, n);
    }
  }

  method PolyMulNumpy(a: Poly, b: Poly, q: int) returns (r: Poly)
    requires |a| == |b| > 0 && q > 0
    ensures r == Mul(a, b, q)
  {
    var n := |a|;
    var conv := Convolve(a, b);
    var folded := new int[n](i requires 0 <= i < |conv| => conv[i]);
    forall i | 0 <= i < n - 1 {
      folded[i] := folded[i] - conv[n + i];
    }
    r := seq(n, i requires 0 <= i < n reads folded => folded[i] % q);
    forall k | 0 <= k < n
      ensures r[k] == Mul(a, b, q)[k]
    {
      FoldIdentity(a, b, k);
      assert ConvCoef(a, b, k) == conv[k];
      if k < n - 1 { assert ConvCoef(a, b, k + n) == conv[n + k]; }
    }
  }

  const INT64_MAX := 0x7FFF_FFFF_FFFF_FFFF

  /** Every number the convolution path forms - a product, a partial sum of one
      output coefficient, a folded difference - is at most n * alpha * beta in
      size. */
  lemma ConvolutionBound(a: seq<int>, b: seq<int>, alpha: int, beta: int, k: int, m: nat)
    requires |a| == |b| > 0 && m <= |a| && 0 <= alpha && 0 <= beta
    requires forall i :: 0 <= i < |a| ==> 0 <= a[i] <= alpha
    requires forall i :: 0 <= i < |b| ==> 0 <= b[i] <= beta
    ensures 0 <= Sum(i => At(a, i) * At(b, k - i), m) <= |a| * (alpha * beta)
    ensures -(|a| * (alpha * beta)) <= MulCoef(a, b, k) <= |a| * (alpha * beta)
  {
    PartialSumBound(a, b, alpha, beta, k, m);
    MulMonotone(m, |a|, alpha * beta);
    MulBounded(a, b, alpha, beta, k);
  }

  lemma {:induction false} PartialSumBound(a: seq<int>, b: seq<int>, alpha: int, beta: int, k: int, m: nat)
    requires |a| == |b| > 0 && m <= |a| && 0 <= alpha && 0 <= beta
    requires forall i :: 0 <= i < |a| ==> 0 <= a[i] <= alpha
    requires forall i :: 0 <= i < |b| ==> 0 <= b[i] <= beta
    ensures 0 <= Sum(i => At(a, i) * At(b, k - i), m) <= m * (alpha * beta)
    ensures 0 <= alpha * beta
  {
    MulMonotone(0, alpha, beta);
    if m > 0 {
      PartialSumBound(a, b, alpha, beta, k, m - 1);
      var x, y := At(a, m - 1), At(b, k - (m - 1));
      MulMonotone(0, x, y);
      MulMonotone(x, alpha, y);
      MulMonotone(y, beta, alpha);
      SumExt(i => At(a, i) * At(b, k - i), i => At(a, i) * At(b, k - i), m - 1);
      assert m * (alpha * beta) == (m - 1) * (alpha * beta) + alpha * beta;
    }
  }

  // ---- the backend switch and the module operations ----

  method PolyMul(a: Poly, b: Poly, q: int, numpy: bool) returns (r: Poly)
    requires |a| == |b| > 0 && q > 0
    ensures r == Mul(a, b, q)
  {
    if numpy { r := PolyMulNumpy(a, b, q); } else { r := PolyMulSchoolbook(a, b, q); }
  }

  ghost predicate IsVector(v: seq<Poly>, k: nat, n: nat) {
    |v| == k && forall i :: 0 <= i < k ==> |v[i]| == n
  }

  ghost predicate IsMatrix(m: seq<seq<Poly>>, k: nat, n: nat) {
    |m| == k && forall i :: 0 <= i < k ==> IsVector(m[i], k, n)
  }

  // coefficient c of x_0 * y_0 + ... + x_(k-1) * y_(k-1), over the integers
  function DotCoef(x: seq<Poly>, y: seq<Poly>, n: nat, c: int, k: nat): int
    requires n > 0 && k <= |x| && k <= |y|
    requires forall i :: 0 <= i < k ==> |x[i]| == |y[i]| == n
  {
    if k == 0 then 0 else DotCoef(x, y, n, c, k - 1) + MulCoef(x[k - 1], y[k - 1], c)
  }

  /** The inner product of two vectors over R_q. */
  function Dot(x: seq<Poly>, y: seq<Poly>, n: nat, q: int): (r: Poly)
    requires n > 0 && q > 0 && IsVector(x, |x|, n) && IsVector(y, |x|, n)
    ensures IsPoly(r, n, q)
  {
    Reduce(seq(n, c => DotCoef(x, y, n, c, |x|)), q)
  }

  /** A.s + e over R_q^k. */
  function MatVecAdd(A: seq<seq<Poly>>, s: seq<Poly>, e: seq<Poly>, n: nat, q: int): (t: seq<Poly>)
    requires n > 0 && q > 0
    requires IsMatrix(A, |s|, n) && IsVector(s, |s|, n) && IsVector(e, |s|, n)
    ensures |t| == |s| && forall i :: 0 <= i < |s| ==> IsPoly(t[i], n, q)
  {
    seq(|s|, i requires 0 <= i < |s| => Add(Dot(A[i], s, n, q), e[i], q))
  }

  // the accumulator after k rounds of "acc = acc + x_i * y_i"
  ghost predicate DotDone(x: seq<Poly>, y: seq<Poly>, n: nat, q: int, k: nat, acc: Poly)
    requires n > 0 && q > 0 && IsVector(x, |x|, n) && IsVector(y, |x|, n) && k <= |x|
  {
    |acc| == n && forall c :: 0 <= c < n ==> acc[c] == DotCoef(x, y, n, c, k) % q
  }

  lemma NothingDone(x: seq<Poly>, y: seq<Poly>, n: nat, q: int)
    requires n > 0 && q > 0 && IsVector(x, |x|, n) && IsVector(y, |x|, n)
    ensures DotDone(x, y, n, q, 0, Zero(n))
  {
    ModSmall(0, q);
  }

  lemma DotStep(x: seq<Poly>, y: seq<Poly>, n: nat, q: int, k: nat, acc: Poly)
    requires n > 0 && q > 0 && IsVector(x, |x|, n) && IsVector(y, |x|, n) && k < |x|
    requires DotDone(x, y, n, q, k, acc)
    ensures DotDone(x, y, n, q, k + 1, Add(acc, Mul(x[k], y[k], q), q))
  {
    var product := Mul(x[k], y[k], q);
    forall c | 0 <= c < n
      ensures (acc[c] + product[c]) % q == DotCoef(x, y, n, c, k + 1) % q
    {
      var term := MulCoef(x[k], y[k], c);
      StepMod(DotCoef(x, y, n, c, k), product[c], q);
      StepMod(term, DotCoef(x, y, n, c, k), q);
    }
  }

  method InnerProduct(t: seq<Poly>, r: seq<Poly>, n: nat, q: int, numpy: bool) returns (acc: Poly)
    requires n > 0 && q > 0 && IsVector(t, |t|, n) && IsVector(r, |t|, n)
    ensures acc == Dot(t, r, n, q)
  {
    acc := Zero(n);
    NothingDone(t, r, n, q);
    for i := 0 to |t|
      invariant DotDone(t, r, n, q, i, acc)
    {
      var product := PolyMul(t[i], r[i], q, numpy);
      DotStep(t, r, n, q, i, acc);
      acc := Add(acc, product, q);
    }
  }

  // a finished accumulator gives the next entry of A.s + e
  lemma RowAppended(A: seq<seq<Poly>>, s: seq<Poly>, e: seq<Poly>, n: nat, q: int, i: nat, acc: Poly)
    requires n > 0 && q > 0 && i < |s|
    requires IsMatrix(A, |s|, n) && IsVector(s, |s|, n) && IsVector(e, |s|, n)
    requires acc == Dot(A[i], s, n, q)
    ensures MatVecAdd(A, s, e, n, q)[..i] + [Add(acc, e[i], q)] == MatVecAdd(A, s, e, n, q)[..i + 1]
  {
  }

  // each row accumulates its products as the inner product does
  method ModuleMulAdd(A: seq<seq<Poly>>, s: seq<Poly>, e: seq<Poly>, n: nat, q: int, numpy: bool)
    returns (out: seq<Poly>)
    requires n > 0 && q > 0
    requires IsMatrix(A, |s|, n) && IsVector(s, |s|, n) && IsVector(e, |s|, n)
    ensures out == MatVecAdd(A, s, e, n, q)
  {
    out := [];
    for i := 0 to |s|
      invariant out == MatVecAdd(A, s, e, n, q)[..i]
    {
      var acc := InnerProduct(A[i], s, n, q, numpy);
      RowAppended(A, s, e, n, q, i, acc);
      out := out + [Add(acc, e[i], q)];
    }
  }
}
