/** Wire layout of vectors: little-endian 16-bit words, polynomials one after
    the other. */
module Packing {
  import opened Wrappers
  import opened PolyRing
  import opened RingArithmetic

  // every number fits the unsigned 16-bit word that the format demands
  ghost predicate Words(xs: seq<int>) {
    forall i :: 0 <= i < |xs| ==> 0 <= xs[i] < 65536
  }

  function PackU16(xs: seq<int>): (r: seq<Byte>)
    requires Words(xs)
    ensures |r| == 2 * |xs|
  {
    seq(2 * |xs|, i requires 0 <= i < 2 * |xs| => if i % 2 == 0 then xs[i / 2] % 256 else xs[i / 2] / 256)
  }

  function UnpackU16(b: seq<Byte>): (r: seq<int>)
    requires |b| % 2 == 0
    ensures |r| == |b| / 2 && Words(r)
  {
    seq(|b| / 2, i requires 0 <= i < |b| / 2 => b[2 * i] as int + 256 * b[2 * i + 1] as int)
  }

  /** Packing and unpacking are inverse to each other, in both directions. */
  lemma PackUnpack(xs: seq<int>, b: seq<Byte>)
    requires Words(xs) && |b| % 2 == 0
    ensures UnpackU16(PackU16(xs)) == xs
    ensures PackU16(UnpackU16(b)) == b
  {
    var packed := PackU16(xs);
    forall i | 0 <= i < |xs|
      ensures UnpackU16(packed)[i] == xs[i]
    {
      assert packed[2 * i] == xs[i] % 256 && packed[2 * i + 1] == xs[i] / 256;
    }
    var words := UnpackU16(b);
    forall i | 0 <= i < |b|
      ensures PackU16(words)[i] == b[i]
    {
      assert words[i / 2] == b[2 * (i / 2)] as int + 256 * b[2 * (i / 2) + 1] as int;
      if i % 2 == 0 { assert i == 2 * (i / 2); } else { assert i == 2 * (i / 2) + 1; }
    }
  }

  function Flat(v: seq<Poly>): seq<int> {
    if v == [] then [] else Flat(v[..|v| - 1]) + v[|v| - 1]
  }

  /** Cut a flat sequence into k polynomials of n coefficients. */
  function Cut(flat: seq<int>, k: nat, n: nat): (v: seq<Poly>)
    requires |flat| == k * n
    ensures IsVector(v, k, n)
  {
    if k == 0 then [] else
      assert k * n == (k - 1) * n + n;
      Cut(flat[..(k - 1) * n], k - 1, n) + [flat[(k - 1) * n..]]
  }

  lemma {:induction false} FlatLength(v: seq<Poly>, n: nat)
    requires IsVector(v, |v|, n)
    ensures |Flat(v)| == |v| * n
  {
    if v != [] {
      FlatLength(v[..|v| - 1], n);
      assert |v| * n == (|v| - 1) * n + n;
    }
  }

  lemma {:induction false} CutFlat(v: seq<Poly>, n: nat)
    requires IsVector(v, |v|, n)
    ensures |Flat(v)| == |v| * n && Cut(Flat(v), |v|, n) == v
  {
    FlatLength(v, n);
    if v != [] {
      var front := v[..|v| - 1];
      FlatLength(front, n);
      CutFlat(front, n);
      assert |v| * n == |front| * n + n;
      assert Flat(v)[..|front| * n] == Flat(front);
      assert Flat(v)[|front| * n..] == v[|v| - 1];
      assert v == front + [v[|v| - 1]];
    }
  }

  lemma {:induction false} FlatCanonical(v: seq<Poly>, n: nat, q: int)
    requires forall i :: 0 <= i < |v| ==> IsPoly(v[i], n, q)
    ensures forall i :: 0 <= i < |Flat(v)| ==> 0 <= Flat(v)[i] < q
  {
    if v != [] { FlatCanonical(v[..|v| - 1], n, q); }
  }
}
