/** The deterministic samplers: centered binomial noise and rejection sampling,
    both fed by an extendable-output function. */
module Samplers {
  import opened Wrappers
  import opened Modular
  import opened PolyRing
  import opened RingArithmetic
  import opened ModuleLwe

  /** An extendable-output hash: byte i of the unbounded output for an input. */
  type Xof = (seq<Byte>, nat) -> Byte

  function Digest(xof: Xof, input: seq<Byte>, length: nat): (buf: seq<Byte>)
    ensures |buf| == length
  {
    seq(length, i requires 0 <= i < length => xof(input, i))
  }

  // ---- centered binomial noise, eta = 2 ----

  const ETA := 2

  function CbdInput(seed: seq<Byte>, nonce: nat): seq<Byte> {
    var word := nonce % 65536;
    seed + [word % 256, word / 256]
  }

  // even coefficients use the low nibble of their byte, odd ones the high nibble
  function Nibble(byte: Byte, i: nat): (nib: int)
    ensures 0 <= nib < 16
  {
    if i % 2 == 0 then byte % 16 else byte / 16
  }

  // popcount of the low two bits minus popcount of the high two bits
  function NibbleNoise(nib: int): (e: int)
    requires 0 <= nib < 16
    ensures -ETA <= e <= ETA
  {
    (nib % 2 + nib / 2 % 2) - (nib / 4 % 2 + nib / 8 % 2)
  }

  function NoisePoly(xof: Xof, seed: seq<Byte>, nonce: nat, length: nat): (e: seq<int>)
    ensures |e| == length
  {
    seq(length, i requires 0 <= i < length => NibbleNoise(Nibble(xof(CbdInput(seed, nonce), i / 2), i)))
  }

  /** The sampler's specification: noise of [-2, 2] lifted to residues. */
  function CbdPoly(xof: Xof, seed: seq<Byte>, nonce: nat, length: nat, q: int): (e: Poly)
    requires q > 0
    ensures IsPoly(e, length, q)
  {
    Reduce(NoisePoly(xof, seed, nonce, length), q)
  }

  method Cbd(xof: Xof, seed: seq<Byte>, nonce: nat, length: nat, q: int) returns (out: Poly)
    requires q > 0
    ensures out == CbdPoly(xof, seed, nonce, length, q)
  {
    var buf := Digest(xof, CbdInput(seed, nonce), (length + 1) / 2);
    out := [];
    for i := 0 to length
      invariant out == CbdPoly(xof, seed, nonce, length, q)[..i]
    {
      var byte := buf[i / 2];
      var nib := if i % 2 == 0 then byte % 16 else byte / 16;
      var a := nib % 2 + nib / 2 % 2;
      var b := nib / 4 % 2 + nib / 8 % 2;
      assert byte == xof(CbdInput(seed, nonce), i / 2) && a - b == NoisePoly(xof, seed, nonce, length)[i];
      out := out + [(a - b) % q];
    }
  }

  // the residues really stand for integers of [-2, 2]
  lemma CbdSmall(xof: Xof, seed: seq<Byte>, nonce: nat, length: nat, q: int)
    requires q > 2 * ETA
    ensures CenteredPoly(CbdPoly(xof, seed, nonce, length, q), q) == NoisePoly(xof, seed, nonce, length)
    ensures Small(CbdPoly(xof, seed, nonce, length, q), ETA, q)
  {
    var noise := NoisePoly(xof, seed, nonce, length);
    forall i | 0 <= i < length
      ensures Centered(CbdPoly(xof, seed, nonce, length, q)[i], q) == noise[i]
      ensures -ETA <= noise[i] <= ETA
    {
      assert noise[i] == NibbleNoise(Nibble(xof(CbdInput(seed, nonce), i / 2), i));
      if noise[i] >= 0 {
        ModUnique(noise[i], 0, noise[i], q);
      } else {
        ModUnique(noise[i], -1, noise[i] + q, q);
      }
    }
  }

  function NoiseVector(xof: Xof, seed: seq<Byte>, first: nat, k: nat, n: nat, q: int): (v: seq<Poly>)
    requires q > 0
    ensures |v| == k && forall i :: 0 <= i < k ==> v[i] == CbdPoly(xof, seed, first + i, n, q)
    ensures forall i :: 0 <= i < k ==> IsPoly(v[i], n, q)
  {
    seq(k, i requires 0 <= i < k => CbdPoly(xof, seed, first + i, n, q))
  }

  lemma NoiseVectorSmall(xof: Xof, seed: seq<Byte>, first: nat, k: nat, n: nat, q: int)
    requires q > 2 * ETA
    ensures SmallVector(NoiseVector(xof, seed, first, k, n, q), ETA, q)
  {
    forall i | 0 <= i < k
      ensures Small(NoiseVector(xof, seed, first, k, n, q)[i], ETA, q)
    {
      CbdSmall(xof, seed, first + i, n, q);
    }
  }

  // ---- rejection sampling ----

  function Candidate(buf: seq<Byte>, idx: nat): int
    requires idx + 1 < |buf|
  {
    (buf[idx] as int + 256 * buf[idx + 1] as int) % 4096
  }

  // all candidates below q from position idx on, in order
  function Accepted(buf: seq<Byte>, q: int, idx: nat): (r: seq<int>)
    ensures forall i :: 0 <= i < |r| ==> 0 <= r[i] < q
    decreases |buf| - idx
  {
    if idx + 1 >= |buf| then []
    else (if Candidate(buf, idx) < q then [Candidate(buf, idx)] else []) + Accepted(buf, q, idx + 2)
  }

  /** The first n accepted candidates; zeros only if the buffer ran out. */
  function UniformPoly(buf: seq<Byte>, n: nat, q: int): (r: Poly)
    requires q > 0
    ensures IsPoly(r, n, q)
  {
    var all := Accepted(buf, q, 0);
    if |all| >= n then all[..n] else all + Zero(n - |all|)
  }

  // what was accepted so far and what is still to come
  ghost predicate Sampled(buf: seq<Byte>, q: int, idx: nat, poly: seq<int>) {
    poly + Accepted(buf, q, idx) == Accepted(buf, q, 0)
  }

  lemma NextCandidate(buf: seq<Byte>, q: int, idx: nat, poly: seq<int>)
    requires idx + 1 < |buf| && Sampled(buf, q, idx, poly)
    ensures Sampled(buf, q, idx + 2, if Candidate(buf, idx) < q then poly + [Candidate(buf, idx)] else poly)
  {
    var x := Candidate(buf, idx);
    assert (poly + [x]) + Accepted(buf, q, idx + 2) == poly + ([x] + Accepted(buf, q, idx + 2));
    assert [] + Accepted(buf, q, idx + 2) == Accepted(buf, q, idx + 2);
  }

  method SampleUniform(buf: seq<Byte>, n: nat, q: int) returns (r: Poly)
    requires q > 0
    ensures r == UniformPoly(buf, n, q)
  {
    var poly, idx := [], 0;
    while |poly| < n && idx + 1 < |buf|
      invariant |poly| <= n
      invariant Sampled(buf, q, idx, poly)
      decreases |buf| - idx
    {
      var val := (buf[idx] as int + 256 * buf[idx + 1] as int) % 4096;
      NextCandidate(buf, q, idx, poly);
      if val < q {
        poly := poly + [val];
      }
      idx := idx + 2;
    }
    r := PadZeros(poly, n);
    assert poly <= Accepted(buf, q, 0);
  }

  method PadZeros(poly: Poly, n: nat) returns (r: Poly)
    requires |poly| <= n
    ensures r == poly + Zero(n - |poly|)
  {
    r := poly;
    while |r| < n
      invariant |poly| <= |r| <= n && r == poly + Zero(|r| - |poly|)
    {
      r := r + [0];
    }
    r := r[..n];
  }

  function MatrixInput(seed: seq<Byte>, i: Byte, j: Byte): seq<Byte> {
    seed + [i, j]
  }

  /** The public matrix of a seed. */
  function MatrixA(xof: Xof, seed: seq<Byte>, k: nat, n: nat, q: int): (A: seq<seq<Poly>>)
    requires q > 0 && k <= 256
    ensures IsMatrix(A, k, n)
    ensures forall i, j :: 0 <= i < k && 0 <= j < k ==> IsPoly(A[i][j], n, q)
  {
    seq(k, i requires 0 <= i < k => MatrixRow(xof, seed, i, k, n, q))
  }

  function MatrixRow(xof: Xof, seed: seq<Byte>, i: Byte, k: nat, n: nat, q: int): (row: seq<Poly>)
    requires q > 0 && k <= 256
    ensures |row| == k && forall j :: 0 <= j < k ==> IsPoly(row[j], n, q)
  {
    seq(k, j requires 0 <= j < k => UniformPoly(Digest(xof, MatrixInput(seed, i, j), n * 3 + 64), n, q))
  }

  method GenMatrixA(xof: Xof, seed: seq<Byte>, k: nat, n: nat, q: int) returns (A: seq<seq<Poly>>)
    requires q > 0 && k <= 256
    ensures A == MatrixA(xof, seed, k, n, q)
  {
    A := [];
    for i := 0 to k
      invariant A == MatrixA(xof, seed, k, n, q)[..i]
    {
      var row := [];
      for j := 0 to k
        invariant row == MatrixRow(xof, seed, i, k, n, q)[..j]
      {
        var buf := Digest(xof, MatrixInput(seed, i, j), n * 3 + 64);
        var poly := SampleUniform(buf, n, q);
        row := row + [poly];
      }
      assert row == MatrixRow(xof, seed, i, k, n, q);
      A := A + [row];
    }
  }
}
