/** Bit encoding of amounts: one bit per coefficient, scaled by floor(q/2). */
module Encoding {
  import opened Wrappers
  import opened Modular
  import opened PolyRing
  import opened Negacyclic

  function Pow2(e: nat): (p: nat)
    ensures p >= 1
  {
    if e == 0 then 1 else 2 * Pow2(e - 1)
  }

  // bit number b of a non-negative integer
  function Bit(m: nat, b: nat): (r: int)
    ensures r == 0 || r == 1
  {
    if b == 0 then m % 2 else Bit(m / 2, b - 1)
  }

  // shifting right by b and masking, as the source does it
  lemma {:induction false} BitIsShift(m: nat, b: nat)
    ensures Bit(m, b) == m / Pow2(b) % 2
  {
    if b > 0 {
      BitIsShift(m / 2, b - 1);
      DivDiv(m, Pow2(b - 1));
    }
  }

  lemma DivDiv(m: nat, p: nat)
    requires p > 0
    ensures m / 2 / p == m / (2 * p)
  {
    var d, r := m / (2 * p), m % (2 * p);
    assert m == 2 * p * d + r;
    assert p * d * 2 == 2 * p * d;
    assert m / 2 == p * d + r / 2;
    ModUnique(m / 2, d, r / 2, p);
  }

  /** The encoding's specification. */
  function Encode(m: nat, n: nat, q: int, bits: nat): (e: Poly)
    requires bits <= n && q > 1
    ensures IsPoly(e, n, q)
  {
    seq(n, i requires 0 <= i < n => if i < bits && Bit(m, i) == 1 then q / 2 else 0)
  }

  method EncodeAmount(amount: int, n: nat, q: int, bits: nat) returns (r: Result<Poly>)
    requires bits <= n && q > 1
    ensures r.Ok? <==> 0 <= amount < Pow2(bits)
    ensures r.Ok? ==> r.value == Encode(amount, n, q, bits)
  {
    if amount < 0 {
      return Err("amount_cents must be non-negative");
    }
    if amount >= Pow2(bits) {
      return Err("amount_cents exceeds the commitment domain");
    }
    var m := new int[n](_ => 0);
    var half := q / 2;
    for bit := 0 to bits
      invariant forall i :: 0 <= i < n ==> m[i] == if i < bit && Bit(amount, i) == 1 then half else 0
    {
      BitIsShift(amount, bit);
      if amount / Pow2(bit) % 2 == 1 {
        m[bit] := half;
      }
    }
    assert m[..] == Encode(amount, n, q, bits);
    r := Ok(m[..]);
  }

  // ---- what the encoding determines ----

  // the number whose binary digits are the nonzero positions from b on
  function Decode(e: Poly, b: nat, bits: nat): (m: nat)
    requires b <= bits <= |e|
    decreases bits - b
  {
    if b == bits then 0 else (if e[b] == 0 then 0 else 1) + 2 * Decode(e, b + 1, bits)
  }

  lemma {:induction false} DecodeEncodeFrom(m: nat, top: nat, n: nat, q: int, bits: nat, b: nat)
    requires b <= bits <= n && q > 1 && top < Pow2(bits - b)
    requires forall i :: b <= i < bits ==> Bit(m, i) == Bit(top, i - b)
    ensures Decode(Encode(m, n, q, bits), b, bits) == top
    decreases bits - b
  {
    if b < bits {
      forall i | b + 1 <= i < bits
        ensures Bit(m, i) == Bit(top / 2, i - (b + 1))
      {
        assert Bit(m, i) == Bit(top, i - b);
      }
      DecodeEncodeFrom(m, top / 2, n, q, bits, b + 1);
      assert Bit(m, b) == Bit(top, 0);
    }
  }

  /** Decode is a left inverse of Encode on the whole domain. */
  lemma DecodeEncode(m: nat, n: nat, q: int, bits: nat)
    requires bits <= n && q > 1 && m < Pow2(bits)
    ensures Decode(Encode(m, n, q, bits), 0, bits) == m
  {
    DecodeEncodeFrom(m, m, n, q, bits, 0);
  }

  // every bit decides between coefficients at distance floor(q/2)
  lemma EncodeInjective(m: nat, m': nat, n: nat, q: int, bits: nat)
    requires bits <= n && q > 1 && m < Pow2(bits) && m' < Pow2(bits)
    requires Encode(m, n, q, bits) == Encode(m', n, q, bits)
    ensures m == m'
  {
    DecodeEncode(m, n, q, bits);
    DecodeEncode(m', n, q, bits);
  }

  /** No two errors of size at most eta bring distinct amounts together. */
  lemma ErrorsCannotBridge(m: nat, m': nat, e: seq<int>, e': seq<int>, n: nat, q: int, bits: nat, eta: nat)
    requires bits <= n && m < Pow2(bits) && m' < Pow2(bits)
    requires |e| == |e'| == n && Bounded(e, eta) && Bounded(e', eta) && q > 4 * eta + 1
    requires CongPoly(AddZ(Encode(m, n, q, bits), e), AddZ(Encode(m', n, q, bits), e'), q)
    ensures m == m'
  {
    var x, x' := Encode(m, n, q, bits), Encode(m', n, q, bits);
    forall i | 0 <= i < n
      ensures x[i] == x'[i]
    {
      assert Cong(AddZ(x, e)[i], AddZ(x', e')[i], q);
      var k := CongMultiple(x[i] + e[i], x'[i] + e'[i], q);
      MulAtLeast(k, q);
    }
    EncodeInjective(m, m', n, q, bits);
  }
}
