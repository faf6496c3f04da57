/** Finite sums of integer-valued functions, with the reindexing laws that the
    convolution proofs need: term by term, swapped, slid along a period, shifted
    and reflected.  Summands are passed as functions, so that a law can be used
    at any of them. */
module Sums {

  // f(0) + f(1) + ... + f(n - 1)
  function Sum(f: int -> int, n: nat): int {
    if n == 0 then 0 else Sum(f, n - 1) + f(n - 1)
  }

  lemma {:induction false} SumExt(f: int -> int, g: int -> int, n: nat)
    requires forall i :: 0 <= i < n ==> f(i) == g(i)
    ensures Sum(f, n) == Sum(g, n)
  {
    if n > 0 { SumExt(f, g, n - 1); }
  }

  lemma {:induction false} SumZero(f: int -> int, n: nat)
    requires forall i :: 0 <= i < n ==> f(i) == 0
    ensures Sum(f, n) == 0
  {
    if n > 0 { SumZero(f, n - 1); }
  }

  // h is the pointwise sum of f and g
  lemma {:induction false} SumAdd(f: int -> int, g: int -> int, h: int -> int, n: nat)
    requires forall i :: 0 <= i < n ==> h(i) == f(i) + g(i)
    ensures Sum(h, n) == Sum(f, n) + Sum(g, n)
  {
    if n > 0 { SumAdd(f, g, h, n - 1); }
  }

  // g is f scaled by c
  lemma {:induction false} SumScale(f: int -> int, g: int -> int, c: int, n: nat)
    requires forall i :: 0 <= i < n ==> g(i) == c * f(i)
    ensures Sum(g, n) == c * Sum(f, n)
  {
    if n > 0 { SumScale(f, g, c, n - 1); }
  }

  // exactly one term of f is nonzero
  lemma {:induction false} SumSingle(f: int -> int, n: nat, k: int)
    requires 0 <= k < n
    requires forall i :: 0 <= i < n && i != k ==> f(i) == 0
    ensures Sum(f, n) == f(k)
  {
    if k == n - 1 { SumZero(f, n - 1); } else { SumSingle(f, n - 1, k); }
  }

  lemma {:induction false} SumBound(f: int -> int, n: nat, b: int)
    requires forall i :: 0 <= i < n ==> -b <= f(i) <= b
    ensures -(n * b) <= Sum(f, n) <= n * b
  {
    if n > 0 {
      SumBound(f, n - 1, b);
      assert n * b == (n - 1) * b + b;
    }
  }

  // Fubini: rows then columns equals columns then rows
  lemma {:induction false} SumSwap(f: (int, int) -> int, m: nat, n: nat)
    ensures Sum(i => Sum(j => f(i, j), n), m) == Sum(j => Sum(i => f(i, j), m), n)
  {
    var rows := (i: int) => Sum(j => f(i, j), n);
    var cols := (j: int) => Sum(i => f(i, j), m);
    if m == 0 {
      SumZero(cols, n);
      SumExt(cols, j => Sum(i => f(i, j), m), n);
    } else {
      var shorter := (j: int) => Sum(i => f(i, j), m - 1);
      var last := (j: int) => f(m - 1, j);
      SumSwap(f, m - 1, n);
      SumExt(rows, i => Sum(j => f(i, j), n), m - 1);
      SumExt(shorter, j => Sum(i => f(i, j), m - 1), n);
      SumExt(last, j => f(m - 1, j), n);
      forall j | 0 <= j < n
        ensures cols(j) == shorter(j) + last(j)
      {
        SumExt(i => f(i, j), i => f(i, j), m - 1);
      }
      SumAdd(shorter, last, cols, n);
      SumExt(cols, j => Sum(i => f(i, j), m), n);
      SumExt(rows, i => Sum(j => f(i, j), n), m);
    }
  }

  ghost predicate Periodic(f: int -> int, n: nat) {
    forall x {:trigger f(x + n)} :: f(x + n) == f(x)
  }

  lemma PeriodicAt(f: int -> int, n: nat, x: int)
    requires Periodic(f, n)
    ensures f(x + n) == f(x)
  {
  }

  // the window moves by one: the first term leaves and the next one enters
  lemma {:induction false} SumSlide(f: int -> int, d: int, n: nat)
    ensures Sum(x => f(x + d + 1), n) == Sum(x => f(x + d), n) - f(d) + f(d + n)
  {
    if n > 0 {
      SumSlide(f, d, n - 1);
      SumExt(x => f(x + d + 1), x => f(x + d + 1), n - 1);
      SumExt(x => f(x + d), x => f(x + d), n - 1);
      assert (n - 1) + d + 1 == d + n;
    }
  }

  // the sum over one period does not depend on where the period starts
  lemma {:induction false} SumShift(f: int -> int, d: int, n: nat)
    requires Periodic(f, n)
    ensures Sum(x => f(x + d), n) == Sum(f, n)
    decreases if d < 0 then -d else d
  {
    if d == 0 {
      SumExt(x => f(x + d), f, n);
    } else if d > 0 {
      SumShift(f, d - 1, n);
      SumSlide(f, d - 1, n);
      PeriodicAt(f, n, d - 1);
      assert f(d - 1 + n) == f(d - 1);
      SumExt(x => f(x + d), x => f(x + (d - 1) + 1), n);
      SumExt(x => f(x + (d - 1)), x => f(x + (d - 1)), n);
    } else {
      SumShift(f, d + 1, n);
      SumSlide(f, d, n);
      PeriodicAt(f, n, d);
      SumExt(x => f(x + (d + 1)), x => f(x + d + 1), n);
      SumExt(x => f(x + d), x => f(x + d), n);
    }
  }

  // g is f without its first term
  lemma {:induction false} FirstTerm(f: int -> int, g: int -> int, n: nat)
    requires n > 0 && forall i :: 0 <= i < n - 1 ==> g(i) == f(i + 1)
    ensures Sum(f, n) == f(0) + Sum(g, n - 1)
  {
    if n > 1 {
      FirstTerm(f, g, n - 1);
      assert g(n - 2) == f(n - 1);
    }
  }

  // the terms may be added in the opposite order
  lemma {:induction false} SumReverse(f: int -> int, back: int -> int, n: nat)
    requires forall i :: 0 <= i < n ==> back(i) == f(n - 1 - i)
    ensures Sum(back, n) == Sum(f, n)
  {
    if n > 0 {
      var rest := (i: int) => back(i + 1);
      SumReverse(f, rest, n - 1);
      FirstTerm(back, rest, n);
    }
  }

  // one period of g, read from d on
  lemma SumShifted(g: int -> int, moved: int -> int, d: int, n: nat)
    requires Periodic(g, n) && forall i :: 0 <= i < n ==> moved(i) == g(i + d)
    ensures Sum(moved, n) == Sum(g, n)
  {
    SumShift(g, d, n);
    SumExt(moved, x => g(x + d), n);
  }

  // over one period the index may be replaced by k - x
  lemma SumReflect(f: int -> int, k: int, n: nat)
    requires Periodic(f, n)
    ensures Sum(x => f(k - x), n) == Sum(f, n)
  {
    var moved, mirrored := (x: int) => f(x + (k - n + 1)), (x: int) => f(k - x);
    SumShifted(f, moved, k - n + 1, n);
    SumReverse(moved, mirrored, n);
    SumExt(mirrored, x => f(k - x), n);
  }
}
