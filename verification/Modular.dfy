/** Congruence of integers modulo a positive q, stated by a multiple of q that
    makes up the difference, and its laws.  The proofs about polynomials use
    these laws instead of the operator %, which the solver handles badly for a
    modulus that is not a constant. */
module Modular {
  import opened Sums

  function Times(k: int, q: int): int {
    k * q
  }

  // x and y differ by a multiple of q
  ghost predicate Cong(x: int, y: int, q: int) {
    exists k :: x == y + Times(k, q)
  }

  lemma CongMultiple(x: int, y: int, q: int) returns (k: int)
    requires Cong(x, y, q)
    ensures x == y + k * q
  {
    k :| x == y + Times(k, q);
  }

  lemma MultipleCong(x: int, y: int, k: int, q: int)
    requires x == y + k * q
    ensures Cong(x, y, q)
  {
    assert x == y + Times(k, q);
  }

  lemma MulAtLeast(d: int, q: int)
    requires q > 0
    ensures d >= 1 ==> d * q >= q
    ensures d <= -1 ==> d * q <= -q
  {
    if d >= 1 { assert (d - 1) * q >= 0; }
    if d <= -1 { assert (-1 - d) * q >= 0; }
  }

  lemma ModUnique(x: int, k: int, r: int, q: int)
    requires q > 0 && x == k * q + r && 0 <= r < q
    ensures x % q == r && x / q == k
  {
    var d := x / q - k;
    assert x == q * (x / q) + x % q;
    assert d * q == r - x % q;
    MulAtLeast(d, q);
  }

  lemma ModCong(x: int, q: int)
    requires q > 0
    ensures Cong(x % q, x, q) && 0 <= x % q < q
  {
    assert x == q * (x / q) + x % q;
    MultipleCong(x % q, x, -(x / q), q);
  }

  // congruent numbers have the same remainder
  lemma CongMod(x: int, y: int, q: int)
    requires q > 0 && Cong(x, y, q)
    ensures x % q == y % q
  {
    var k := CongMultiple(x, y, q);
    assert y == q * (y / q) + y % q;
    assert x == (y / q + k) * q + y % q;
    ModUnique(x, y / q + k, y % q, q);
  }

  lemma SameModCong(x: int, y: int, q: int)
    requires q > 0 && x % q == y % q
    ensures Cong(x, y, q)
  {
    ModCong(x, q);
    ModCong(y, q);
    CongSym(x % q, x, q);
    CongTrans(x, x % q, y, q);
  }

  lemma ModSmall(x: int, q: int)
    requires 0 <= x < q
    ensures x % q == x
  {
    ModUnique(x, 0, x, q);
  }

  // two residues that are congruent are equal
  lemma CongSmall(x: int, y: int, q: int)
    requires 0 <= x < q && 0 <= y < q && Cong(x, y, q)
    ensures x == y
  {
    CongMod(x, y, q);
    ModSmall(x, q);
    ModSmall(y, q);
  }

  lemma CongRefl(x: int, q: int)
    ensures Cong(x, x, q)
  {
    MultipleCong(x, x, 0, q);
  }

  lemma CongSym(x: int, y: int, q: int)
    requires Cong(x, y, q)
    ensures Cong(y, x, q)
  {
    var k := CongMultiple(x, y, q);
    MultipleCong(y, x, -k, q);
  }

  lemma CongTrans(x: int, y: int, z: int, q: int)
    requires Cong(x, y, q) && Cong(y, z, q)
    ensures Cong(x, z, q)
  {
    var j := CongMultiple(x, y, q);
    var k := CongMultiple(y, z, q);
    MultipleCong(x, z, j + k, q);
  }

  lemma CongAdd(x: int, x': int, y: int, y': int, q: int)
    requires Cong(x, x', q) && Cong(y, y', q)
    ensures Cong(x + y, x' + y', q)
  {
    var j := CongMultiple(x, x', q);
    var k := CongMultiple(y, y', q);
    MultipleCong(x + y, x' + y', j + k, q);
  }

  lemma CongNeg(x: int, x': int, q: int)
    requires Cong(x, x', q)
    ensures Cong(-x, -x', q)
  {
    var k := CongMultiple(x, x', q);
    MultipleCong(-x, -x', -k, q);
  }

  lemma CongSub(x: int, x': int, y: int, y': int, q: int)
    requires Cong(x, x', q) && Cong(y, y', q)
    ensures Cong(x - y, x' - y', q)
  {
    CongNeg(y, y', q);
    CongAdd(x, x', -y, -y', q);
  }

  lemma CongMul(x: int, x': int, y: int, y': int, q: int)
    requires Cong(x, x', q) && Cong(y, y', q)
    ensures Cong(x * y, x' * y', q)
  {
    var j := CongMultiple(x, x', q);
    var k := CongMultiple(y, y', q);
    var m := x' * k + j * y;
    calc {
      x * y;
      (x' + j * q) * y;
      x' * y + j * q * y;
      { assert x' * y == x' * y' + x' * (k * q); }
      x' * y' + x' * (k * q) + j * q * y;
      { assert x' * (k * q) == (x' * k) * q; assert j * q * y == (j * y) * q; }
      x' * y' + (x' * k) * q + (j * y) * q;
      x' * y' + m * q;
    }
    MultipleCong(x * y, x' * y', m, q);
  }

  lemma {:induction false} CongSum(f: int -> int, g: int -> int, n: nat, q: int)
    requires forall i :: 0 <= i < n ==> Cong(f(i), g(i), q)
    ensures Cong(Sum(f, n), Sum(g, n), q)
  {
    if n == 0 {
      CongRefl(0, q);
    } else {
      CongSum(f, g, n - 1, q);
      CongAdd(Sum(f, n - 1), Sum(g, n - 1), f(n - 1), g(n - 1), q);
    }
  }
}
