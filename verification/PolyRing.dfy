/** The ring R_q = Z_q[X]/(X^n + 1).  An element is the sequence of its n
    coefficients, each in [0, q); sums and products are reduced coefficient by
    coefficient. */
module PolyRing {
  import opened Sums
  import opened Modular
  import opened Negacyclic

  type Poly = seq<int>

  ghost predicate IsPoly(a: Poly, n: nat, q: int) {
    |a| == n && forall i :: 0 <= i < n ==> 0 <= a[i] < q
  }

  function Reduce(a: seq<int>, q: int): (r: Poly)
    requires q > 0
    ensures IsPoly(r, |a|, q)
  {
    seq(|a|, i requires 0 <= i < |a| => a[i] % q)
  }

  /** Coefficientwise sum; the shorter operand decides the length. */
  function Add(a: Poly, b: Poly, q: int): (r: Poly)
    requires q > 0
    ensures IsPoly(r, if |a| < |b| then |a| else |b|, q)
  {
    var n := if |a| < |b| then |a| else |b|;
    seq(n, i requires 0 <= i < n => (a[i] + b[i]) % q)
  }

  function Neg(a: Poly, q: int): (r: Poly)
    requires q > 0
    ensures IsPoly(r, |a|, q)
  {
    seq(|a|, i requires 0 <= i < |a| => -a[i] % q)
  }

  function Mul(a: Poly, b: Poly, q: int): (r: Poly)
    requires |a| == |b| > 0 && q > 0
    ensures IsPoly(r, |a|, q)
  {
    Reduce(MulZ(a, b), q)
  }

  function Zero(n: nat): (r: Poly) {
    seq(n, i => 0)
  }

  // the monomial X^d
  function Monomial(n: nat, d: nat): Poly {
    seq(n, i => if i == d then 1 else 0)
  }

  function One(n: nat): Poly {
    Monomial(n, 0)
  }

  function Pow(a: Poly, e: nat, q: int): (r: Poly)
    requires |a| > 0 && q > 0
    ensures |r| == |a|
  {
    if e == 0 then One(|a|) else Mul(Pow(a, e - 1, q), a, q)
  }

  // ---- congruence of coefficient sequences ----

  ghost predicate CongPoly(a: seq<int>, b: seq<int>, q: int) {
    |a| == |b| && forall i :: 0 <= i < |a| ==> Cong(a[i], b[i], q)
  }

  lemma CongPolySym(a: seq<int>, b: seq<int>, q: int)
    requires CongPoly(a, b, q)
    ensures CongPoly(b, a, q)
  {
    forall i | 0 <= i < |a| ensures Cong(b[i], a[i], q) { CongSym(a[i], b[i], q); }
  }

  lemma CongPolyTrans(a: seq<int>, b: seq<int>, c: seq<int>, q: int)
    requires CongPoly(a, b, q) && CongPoly(b, c, q)
    ensures CongPoly(a, c, q)
  {
    forall i | 0 <= i < |a| ensures Cong(a[i], c[i], q) { CongTrans(a[i], b[i], c[i], q); }
  }

  lemma CongPolyRefl(a: seq<int>, q: int)
    ensures CongPoly(a, a, q)
  {
    forall i | 0 <= i < |a| ensures Cong(a[i], a[i], q) { CongRefl(a[i], q); }
  }

  lemma ReduceCong(a: seq<int>, q: int)
    requires q > 0
    ensures CongPoly(Reduce(a, q), a, q)
  {
    forall i | 0 <= i < |a| ensures Cong(Reduce(a, q)[i], a[i], q) { ModCong(a[i], q); }
  }

  // canonical representatives are unique
  lemma CongPolyEqual(a: Poly, b: Poly, n: nat, q: int)
    requires IsPoly(a, n, q) && IsPoly(b, n, q) && CongPoly(a, b, q)
    ensures a == b
  {
    forall i | 0 <= i < n ensures a[i] == b[i] { CongSmall(a[i], b[i], q); }
  }

  lemma AddCong(a: Poly, b: Poly, q: int)
    requires |a| == |b| && q > 0
    ensures CongPoly(Add(a, b, q), AddZ(a, b), q)
  {
    forall i | 0 <= i < |a| ensures Cong(Add(a, b, q)[i], AddZ(a, b)[i], q) { ModCong(a[i] + b[i], q); }
  }

  lemma AddZCong(a: seq<int>, a': seq<int>, b: seq<int>, b': seq<int>, q: int)
    requires |a| == |b| && CongPoly(a, a', q) && CongPoly(b, b', q)
    ensures CongPoly(AddZ(a, b), AddZ(a', b'), q)
  {
    forall i | 0 <= i < |a|
      ensures Cong(AddZ(a, b)[i], AddZ(a', b')[i], q)
    {
      CongAdd(a[i], a'[i], b[i], b'[i], q);
    }
  }

  // the reduced sum of two operands known up to congruence
  lemma AddOf(a: Poly, a': seq<int>, b: Poly, b': seq<int>, q: int)
    requires |a| == |b| && q > 0 && CongPoly(a, a', q) && CongPoly(b, b', q)
    ensures CongPoly(Add(a, b, q), AddZ(a', b'), q)
  {
    AddCong(a, b, q);
    AddZCong(a, a', b, b', q);
    CongPolyTrans(Add(a, b, q), AddZ(a, b), AddZ(a', b'), q);
  }

  function NegZ(a: seq<int>): (r: seq<int>)
    ensures |r| == |a|
  {
    seq(|a|, i requires 0 <= i < |a| => -a[i])
  }

  lemma NegOf(a: Poly, a': seq<int>, q: int)
    requires q > 0 && CongPoly(a, a', q)
    ensures CongPoly(Neg(a, q), NegZ(a'), q)
  {
    forall i | 0 <= i < |a|
      ensures Cong(Neg(a, q)[i], NegZ(a')[i], q)
    {
      ModCong(-a[i], q);
      CongNeg(a[i], a'[i], q);
      CongTrans(-a[i] % q, -a[i], -a'[i], q);
    }
  }

  lemma MulZCong(a: seq<int>, a': seq<int>, b: seq<int>, b': seq<int>, q: int)
    requires |a| == |b| > 0 && CongPoly(a, a', q) && CongPoly(b, b', q)
    ensures CongPoly(MulZ(a, b), MulZ(a', b'), q)
  {
    forall k | 0 <= k < |a|
      ensures Cong(MulZ(a, b)[k], MulZ(a', b')[k], q)
    {
      MulCong(a, a', b, b', k, q);
    }
  }

  // reducing the factors first does not change the product
  lemma MulReduced(a: seq<int>, a': seq<int>, b: seq<int>, b': seq<int>, q: int)
    requires |a| == |b| > 0 && q > 0 && CongPoly(a, a', q) && CongPoly(b, b', q)
    ensures Mul(a, b, q) == Mul(a', b', q)
  {
    MulZCong(a, a', b, b', q);
    ReduceEqual(MulZ(a, b), MulZ(a', b'), q);
  }

  lemma ReduceEqual(a: seq<int>, b: seq<int>, q: int)
    requires q > 0 && CongPoly(a, b, q)
    ensures Reduce(a, q) == Reduce(b, q)
  {
    forall i | 0 <= i < |a| ensures a[i] % q == b[i] % q { CongMod(a[i], b[i], q); }
  }

  // a sum of congruent operands, reduced
  lemma AddReduced(a: Poly, a': seq<int>, b: Poly, b': seq<int>, q: int)
    requires |a| == |b| && q > 0 && CongPoly(a, a', q) && CongPoly(b, b', q)
    ensures Add(a, b, q) == Reduce(AddZ(a', b'), q)
  {
    AddZCong(a, a', b, b', q);
    ReduceEqual(AddZ(a, b), AddZ(a', b'), q);
    assert Add(a, b, q) == Reduce(AddZ(a, b), q);
  }

  // ---- the ring laws ----

  /** (R_q, +) is an abelian group with identity Zero. */
  lemma AdditiveGroup(a: Poly, b: Poly, c: Poly, n: nat, q: int)
    requires q > 0 && IsPoly(a, n, q) && IsPoly(b, n, q) && IsPoly(c, n, q)
    ensures Add(a, b, q) == Add(b, a, q)
    ensures Add(Add(a, b, q), c, q) == Add(a, Add(b, c, q), q)
    ensures Add(a, Zero(n), q) == a
    ensures Add(a, Neg(a, q), q) == Zero(n)
  {
    AddCong(a, b, q);
    AddCong(b, c, q);
    CongPolyRefl(a, q);
    CongPolyRefl(c, q);
    AddReduced(Add(a, b, q), AddZ(a, b), c, c, q);
    AddReduced(a, a, Add(b, c, q), AddZ(b, c), q);
    assert AddZ(AddZ(a, b), c) == AddZ(a, AddZ(b, c));
    forall i | 0 <= i < n
      ensures Add(a, Zero(n), q)[i] == a[i]
      ensures Add(a, Neg(a, q), q)[i] == 0
    {
      ModSmall(a[i], q);
      ModCong(-a[i], q);
      CongRefl(a[i], q);
      CongAdd(a[i], a[i], -a[i] % q, -a[i], q);
      CongMod(a[i] + -a[i] % q, 0, q);
      ModSmall(0, q);
    }
  }

  /** The product is commutative for any integer coefficients. */
  lemma MulCommutative(a: Poly, b: Poly, q: int)
    requires |a| == |b| > 0 && q > 0
    ensures Mul(a, b, q) == Mul(b, a, q)
  {
    forall k | 0 <= k < |a| ensures MulZ(a, b)[k] == MulZ(b, a)[k] { MulCommutes(a, b, k); }
    assert MulZ(a, b) == MulZ(b, a);
  }

  lemma MulAssociative(a: Poly, b: Poly, c: Poly, q: int)
    requires |a| == |b| == |c| > 0 && q > 0
    ensures Mul(Mul(a, b, q), c, q) == Mul(a, Mul(b, c, q), q)
  {
    ReduceCong(MulZ(a, b), q);
    ReduceCong(MulZ(b, c), q);
    CongPolyRefl(a, q);
    CongPolyRefl(c, q);
    MulReduced(Mul(a, b, q), MulZ(a, b), c, c, q);
    MulReduced(a, a, Mul(b, c, q), MulZ(b, c), q);
    forall k | 0 <= k < |a|
      ensures MulZ(MulZ(a, b), c)[k] == MulZ(a, MulZ(b, c))[k]
    {
      MulAssociates(a, b, c, k);
    }
    assert MulZ(MulZ(a, b), c) == MulZ(a, MulZ(b, c));
  }

  lemma MulDistributive(a: Poly, b: Poly, c: Poly, q: int)
    requires |a| == |b| == |c| > 0 && q > 0
    ensures Mul(a, Add(b, c, q), q) == Add(Mul(a, b, q), Mul(a, c, q), q)
  {
    AddCong(b, c, q);
    CongPolyRefl(a, q);
    MulReduced(a, a, Add(b, c, q), AddZ(b, c), q);
    ReduceCong(MulZ(a, b), q);
    ReduceCong(MulZ(a, c), q);
    AddReduced(Mul(a, b, q), MulZ(a, b), Mul(a, c, q), MulZ(a, c), q);
    forall k | 0 <= k < |a|
      ensures MulZ(a, AddZ(b, c))[k] == AddZ(MulZ(a, b), MulZ(a, c))[k]
    {
      MulDistributes(a, b, c, k);
    }
    assert MulZ(a, AddZ(b, c)) == AddZ(MulZ(a, b), MulZ(a, c));
  }

  // multiplying by X^d moves every coefficient up by d places
  lemma MonomialShifts(a: seq<int>, d: nat, k: int)
    requires 0 <= d < |a|
    ensures MulCoef(Monomial(|a|, d), a, k) == Ext(a, k - d)
  {
    var x := Monomial(|a|, d);
    var f := (i: int) => Ext(x, i) * Ext(a, k - i);
    forall i | 0 <= i < |a| && i != d ensures f(i) == 0 { assert x[i] == 0; }
    assert x[d] == 1;
    SumSingle(f, |a|, d);
    SumExt(f, i => Ext(x, i) * Ext(a, k - i), |a|);
  }

  lemma MulUnit(a: Poly, n: nat, q: int)
    requires n > 0 && q > 0 && IsPoly(a, n, q)
    ensures Mul(One(n), a, q) == a
    ensures Mul(a, One(n), q) == a
  {
    forall k | 0 <= k < n
      ensures Mul(One(n), a, q)[k] == a[k]
    {
      MonomialShifts(a, 0, k);
      ModSmall(a[k], q);
    }
    MulCommutative(a, One(n), q);
  }

  // X^e for e < n is the monomial itself
  lemma {:induction false} PowerOfX(n: nat, e: nat, q: int)
    requires 2 <= n && e < n && q > 1
    ensures Pow(Monomial(n, 1), e, q) == Monomial(n, e)
  {
    var x := Monomial(n, 1);
    if e > 0 {
      PowerOfX(n, e - 1, q);
      NextPower(n, e, q);
    }
  }

  lemma NextPower(n: nat, e: nat, q: int)
    requires 0 < e < n && q > 1
    ensures Mul(Monomial(n, e - 1), Monomial(n, 1), q) == Monomial(n, e)
  {
    var x := Monomial(n, 1);
    forall k | 0 <= k < n
      ensures Mul(Monomial(n, e - 1), x, q)[k] == Monomial(n, e)[k]
    {
      MonomialShifts(x, e - 1, k);
      ShiftedX(n, e, k);
      ModSmall(Monomial(n, e)[k], q);
    }
  }

  // moving X up by e - 1 places gives X^e
  lemma ShiftedX(n: nat, e: nat, k: nat)
    requires 0 < e < n && k < n
    ensures Ext(Monomial(n, 1), k - (e - 1)) == Monomial(n, e)[k]
  {
    var t := k - (e - 1);
    if t < 0 {
      assert Ext(Monomial(n, 1), t) == -Monomial(n, 1)[t + n];
    } else {
      assert Ext(Monomial(n, 1), t) == Monomial(n, 1)[t];
    }
  }

  /** X^n reduces to -1: the sign that makes the ring negacyclic. */
  lemma XToTheNIsMinusOne(n: nat, q: int)
    requires 2 <= n && q > 1
    ensures Pow(Monomial(n, 1), n, q) == Neg(One(n), q)
  {
    var x := Monomial(n, 1);
    PowerOfX(n, n - 1, q);
    forall k | 0 <= k < n
      ensures Mul(Monomial(n, n - 1), x, q)[k] == Neg(One(n), q)[k]
    {
      MonomialShifts(x, n - 1, k);
    }
  }
}
