/** Which bytes feed which polynomial, and what the published words amount to. */
module CommitReadings {
  import opened Wrappers
  import opened Sums
  import opened Negacyclic
  import opened PolyRing
  import opened RingArithmetic
  import opened Samplers
  import opened Packing
  import opened Encoding
  import opened LweCommit
  import L = ModuleLwe

  // ---- inputs of the two extendable-output functions ----

  // the second byte of a pair is the high one
  lemma LittleEndian(xs: seq<int>, b: seq<Byte>, i: nat)
    requires Words(xs) && i < |xs| && |b| % 2 == 0
    ensures xs[i] == PackU16(xs)[2 * i] as int + 256 * PackU16(xs)[2 * i + 1] as int
    ensures 2 * i < |b| ==> UnpackU16(b)[i] == b[2 * i] as int + 256 * b[2 * i + 1] as int
  {
  }

  // the text behind the seed is the nonce as one little-endian word
  lemma NonceIsRead(seed: seq<Byte>, nonce: nat)
    requires nonce < 65536
    ensures CbdInput(seed, nonce)[..|seed|] == seed && UnpackU16(CbdInput(seed, nonce)[|seed|..]) == [nonce]
  {
    assert CbdInput(seed, nonce)[|seed|..] == [nonce % 256, nonce / 256];
  }

  /** Distinct nonces read distinct inputs, so no two polynomials expanded from
      one seed share their randomness by construction. */
  lemma NoncesDistinct(seed: seq<Byte>, a: nat, b: nat)
    requires a < 65536 && b < 65536
    ensures CbdInput(seed, a) == CbdInput(seed, b) <==> a == b
  {
    NonceIsRead(seed, a);
    NonceIsRead(seed, b);
  }

  /** Entry (i, j) of the matrix is sampled from the seed, then i, then j: no two
      entries share an input. */
  lemma MatrixInputsDistinct(seed: seq<Byte>, i: Byte, j: Byte, i': Byte, j': Byte)
    ensures MatrixInput(seed, i, j)[..|seed|] == seed && MatrixInput(seed, i, j)[|seed|..] == [i, j]
    ensures MatrixInput(seed, i, j) == MatrixInput(seed, i', j') <==> i == i' && j == j'
  {
    assert MatrixInput(seed, i, j)[|seed|..] == [i, j] && MatrixInput(seed, i', j')[|seed|..] == [i', j'];
    assert [i, j][0] == i && [i, j][1] == j;
  }

  ghost predicate Noise(h: Hashes, seed: seq<Byte>, nonce: nat, p: Params, e: Poly)
    requires p.Valid()
  {
    e == CbdPoly(h.shake256, seed, nonce, p.n, p.q)
  }

  /** The 2k noise polynomials of a key are read from the nonces 0 .. 2k - 1: the
      secret first, then the error; all from distinct inputs, and the matrix
      from the seed followed by row and column. */
  lemma KeyInputs(h: Hashes, seed: seq<Byte>, p: Params, i: nat, j: nat)
    requires p.Valid() && i < p.k && j < p.k
    ensures var kp := KeysOf(h, seed, p);
            && Noise(h, seed, i, p, kp.s[i]) && Noise(h, seed, p.k + i, p, kp.e[i])
            && kp.A[i][j] == UniformPoly(Digest(h.shake128, seed + [i, j], 3 * p.n + 64), p.n, p.q)
    ensures CbdInput(seed, i) != CbdInput(seed, p.k + j) && (CbdInput(seed, i) == CbdInput(seed, j) <==> i == j)
  {
    NoncesDistinct(seed, i, p.k + j);
    NoncesDistinct(seed, i, j);
  }

  /** Likewise the 2k + 1 polynomials of a blinding: r, then e1, then e2. */
  lemma BlindingInputs(h: Hashes, rSeed: seq<Byte>, p: Params, i: nat, j: nat)
    requires p.Valid() && i < p.k && j < p.k
    ensures var b := BlindingOf(h, rSeed, p);
            && Noise(h, rSeed, i, p, b.r[i]) && Noise(h, rSeed, p.k + i, p, b.e1[i])
            && Noise(h, rSeed, 2 * p.k, p, b.e2)
    ensures CbdInput(rSeed, i) != CbdInput(rSeed, p.k + j)
    ensures CbdInput(rSeed, i) != CbdInput(rSeed, 2 * p.k) && CbdInput(rSeed, p.k + j) != CbdInput(rSeed, 2 * p.k)
    ensures CbdInput(rSeed, i) == CbdInput(rSeed, j) <==> i == j
    ensures CbdInput(rSeed, p.k + i) == CbdInput(rSeed, p.k + j) <==> i == j
  {
    NoncesDistinct(rSeed, i, p.k + j);
    NoncesDistinct(rSeed, i, 2 * p.k);
    NoncesDistinct(rSeed, p.k + j, 2 * p.k);
    NoncesDistinct(rSeed, i, j);
    NoncesDistinct(rSeed, p.k + i, p.k + j);
  }

  // ---- from bytes to coefficients ----

  datatype HalfByte = HalfByte(b0: int, b1: int, b2: int, b3: int) {
    ghost predicate Valid() {
      0 <= b0 <= 1 && 0 <= b1 <= 1 && 0 <= b2 <= 1 && 0 <= b3 <= 1
    }

    // the number with these binary digits
    function Number(): int {
      b0 + 2 * b1 + 4 * b2 + 8 * b3
    }

    // two digits count up, two count down
    function Noise(): int {
      b0 + b1 - b2 - b3
    }
  }

  lemma LowestBit(b: int, rest: int)
    requires 0 <= b <= 1 && rest >= 0
    ensures (b + 2 * rest) % 2 == b && (b + 2 * rest) / 2 == rest
  {
  }

  lemma HigherBits(x: HalfByte)
    requires x.Valid()
    ensures x.Number() % 2 == x.b0 && x.Number() / 2 % 2 == x.b1
    ensures x.Number() / 4 % 2 == x.b2 && x.Number() / 8 % 2 == x.b3
  {
    LowestBit(x.b0, x.b1 + 2 * x.b2 + 4 * x.b3);
    LowestBit(x.b1, x.b2 + 2 * x.b3);
    LowestBit(x.b2, x.b3);
    assert x.Number() / 4 == x.b2 + 2 * x.b3 && x.Number() / 8 == x.b3;
  }

  lemma HalfByteNoise(x: HalfByte)
    requires x.Valid()
    ensures 0 <= x.Number() < 16 && NibbleNoise(x.Number()) == x.Noise()
  {
    HigherBits(x);
  }

  /** Byte j of the stream, with these low and high halves, gives coefficients 2j
      and 2j + 1 in this order. */
  lemma NoiseFromBits(xof: Xof, seed: seq<Byte>, nonce: nat, length: nat, j: nat, lo: HalfByte, hi: HalfByte)
    requires lo.Valid() && hi.Valid() && xof(CbdInput(seed, nonce), j) == lo.Number() + 16 * hi.Number()
    ensures 2 * j < length ==> NoisePoly(xof, seed, nonce, length)[2 * j] == lo.Noise()
    ensures 2 * j + 1 < length ==> NoisePoly(xof, seed, nonce, length)[2 * j + 1] == hi.Noise()
  {
    HalfByteNoise(lo);
    HalfByteNoise(hi);
    HalvesOf(xof(CbdInput(seed, nonce), j), lo.Number(), hi.Number(), j);
    if 2 * j < length { NoiseAt(xof, seed, nonce, length, j, 2 * j); }
    if 2 * j + 1 < length { NoiseAt(xof, seed, nonce, length, j, 2 * j + 1); }
  }

  lemma NoiseAt(xof: Xof, seed: seq<Byte>, nonce: nat, length: nat, j: nat, i: nat)
    requires i < length && (i == 2 * j || i == 2 * j + 1)
    ensures NoisePoly(xof, seed, nonce, length)[i] == NibbleNoise(Nibble(xof(CbdInput(seed, nonce), j), i))
  {
    assert i / 2 == j;
  }

  lemma HalvesOf(byte: Byte, lo: int, hi: int, j: nat)
    requires 0 <= lo < 16 && 0 <= hi < 16 && byte == lo + 16 * hi
    ensures Nibble(byte, 2 * j) == lo && Nibble(byte, 2 * j + 1) == hi
  {
  }

  // a candidate is the low byte and the low half of the high byte
  lemma TwelveBits(buf: seq<Byte>, idx: nat, low: int, high: int)
    requires idx + 1 < |buf| && 0 <= low < 16 && 0 <= high && buf[idx + 1] == low + 16 * high
    ensures Candidate(buf, idx) == buf[idx] + 256 * low
  {
    var x := buf[idx] + 256 * low;
    assert buf[idx] as int + 256 * buf[idx + 1] as int == x + 4096 * high;
  }

  // word p of the buffer is a candidate below q
  ghost predicate Accepts(buf: seq<Byte>, q: int, p: nat) {
    2 * p + 1 < |buf| && Candidate(buf, 2 * p) < q
  }

  // ps lists the accepted words from w on, in order, and xs their candidates
  ghost predicate Lists(buf: seq<Byte>, q: int, w: nat, ps: seq<nat>, xs: seq<int>) {
    && |ps| == |xs| && (forall i :: 0 <= i < |ps| ==> Listed(buf, q, w, ps[i], xs[i]))
    && (forall i, j :: 0 <= i < j < |ps| ==> ps[i] < ps[j])
    && (forall p: nat :: w <= p && Accepts(buf, q, p) ==> p in ps)
  }

  ghost predicate Listed(buf: seq<Byte>, q: int, w: nat, p: nat, x: int) {
    w <= p && Accepts(buf, q, p) && x == Candidate(buf, 2 * p)
  }

  lemma TakeWord(buf: seq<Byte>, q: int, w: nat, ps: seq<nat>, xs: seq<int>)
    requires Lists(buf, q, w + 1, ps, xs) && Accepts(buf, q, w)
    ensures Lists(buf, q, w, [w] + ps, [Candidate(buf, 2 * w)] + xs)
  {
    var ps', xs' := [w] + ps, [Candidate(buf, 2 * w)] + xs;
    forall i | 0 <= i < |ps'|
      ensures Listed(buf, q, w, ps'[i], xs'[i])
    {
      if i > 0 { assert Listed(buf, q, w + 1, ps[i - 1], xs[i - 1]); }
    }
    forall i, j | 0 <= i < j < |ps'|
      ensures ps'[i] < ps'[j]
    {
      assert Listed(buf, q, w + 1, ps[j - 1], xs[j - 1]);
    }
  }

  lemma SkipWord(buf: seq<Byte>, q: int, w: nat, ps: seq<nat>, xs: seq<int>)
    requires Lists(buf, q, w + 1, ps, xs) && !Accepts(buf, q, w)
    ensures Lists(buf, q, w, ps, xs)
  {
    forall i | 0 <= i < |ps| ensures Listed(buf, q, w, ps[i], xs[i]) { assert Listed(buf, q, w + 1, ps[i], xs[i]); }
  }

  /** Rejection sampling keeps exactly the words that yield a candidate below q,
      in their order. */
  lemma {:induction false} AcceptedInOrder(buf: seq<Byte>, q: int, w: nat) returns (ps: seq<nat>)
    ensures Lists(buf, q, w, ps, Accepted(buf, q, 2 * w))
    decreases |buf| - w
  {
    if 2 * w + 1 >= |buf| {
      ps := [];
    } else {
      var rest := AcceptedInOrder(buf, q, w + 1);
      var all := Accepted(buf, q, 2 * w + 2);
      if Accepts(buf, q, w) {
        TakeWord(buf, q, w, rest, all);
        ps := [w] + rest;
      } else {
        SkipWord(buf, q, w, rest, all);
        assert [] + all == all;
        ps := rest;
      }
    }
  }

  /** The sampled polynomial is what was accepted first, then zeros if the buffer
      ran out. */
  lemma UniformReads(buf: seq<Byte>, n: nat, q: int, i: nat)
    requires q > 0 && i < n
    ensures UniformPoly(buf, n, q)[i] == if i < |Accepted(buf, q, 0)| then Accepted(buf, q, 0)[i] else 0
  {
  }

  // ---- the equations of a key and of a commitment ----

  /** The inner product over the integers is the sum of the k ring products. */
  lemma {:induction false} DotIsSum(x: seq<Poly>, y: seq<Poly>, n: nat, c: int, k: nat, f: int -> int)
    requires n > 0 && k <= |x| && k <= |y| && (forall i :: 0 <= i < k ==> |x[i]| == |y[i]| == n)
    requires forall i :: 0 <= i < k ==> f(i) == MulCoef(x[i], y[i], c)
    ensures DotCoef(x, y, n, c, k) == Sum(f, k)
  {
    if k > 0 { DotIsSum(x, y, n, c, k - 1, f); }
  }

  // column j of a matrix
  function Column(A: seq<seq<Poly>>, j: nat, k: nat, n: nat): (v: seq<Poly>)
    requires IsMatrix(A, k, n) && j < k
    ensures IsVector(v, k, n)
  {
    seq(k, i requires 0 <= i < k => A[i][j])
  }

  // coefficient c of row i of A.s + e, before reduction
  function MatVecCoef(A: seq<seq<Poly>>, s: seq<Poly>, e: seq<Poly>, n: nat, i: nat, c: nat): int
    requires n > 0 && i < |s| && c < n
    requires IsMatrix(A, |s|, n) && IsVector(s, |s|, n) && IsVector(e, |s|, n)
  {
    DotCoef(A[i], s, n, c, |s|) + e[i][c]
  }

  lemma MatVecEquation(A: seq<seq<Poly>>, s: seq<Poly>, e: seq<Poly>, n: nat, q: int, i: nat, c: nat)
    requires n > 0 && q > 0 && i < |s| && c < n
    requires IsMatrix(A, |s|, n) && IsVector(s, |s|, n) && IsVector(e, |s|, n)
    ensures MatVecAdd(A, s, e, n, q)[i][c] == MatVecCoef(A, s, e, n, i, c) % q
  {
    StepMod(DotCoef(A[i], s, n, c, |s|), e[i][c], q);
  }

  /** Coefficient c of t_i is that of row i of A times s, plus e_i, modulo q. */
  lemma KeyEquation(h: Hashes, seed: seq<Byte>, p: Params, i: nat, c: nat)
    requires p.Valid() && i < p.k && c < p.n
    ensures var kp := KeysOf(h, seed, p);
            kp.t[i][c] == MatVecCoef(kp.A, kp.s, kp.e, p.n, i, c) % p.q
  {
    var kp := KeysOf(h, seed, p);
    MatVecEquation(kp.A, kp.s, kp.e, p.n, p.q, i, c);
  }

  lemma {:induction false} DotSame(x: seq<Poly>, x': seq<Poly>, y: seq<Poly>, n: nat, c: int, k: nat)
    requires n > 0 && k <= |x| && k <= |x'| && k <= |y| && (forall i :: 0 <= i < k ==> |x[i]| == |y[i]| == n)
    requires forall i :: 0 <= i < k ==> x[i] == x'[i]
    ensures DotCoef(x, y, n, c, k) == DotCoef(x', y, n, c, k)
  {
    if k > 0 { DotSame(x, x', y, n, c, k - 1); }
  }

  // 16-bit word number w, low byte first
  function WordAt(b: seq<Byte>, w: nat): int
    requires 2 * w + 1 < |b|
  {
    b[2 * w] as int + 256 * b[2 * w + 1] as int
  }

  // the word of coefficient c of polynomial i is x
  ghost predicate HoldsAt(b: seq<Byte>, n: nat, i: nat, c: nat, x: int) {
    2 * (i * n + c) + 1 < |b| && WordAt(b, i * n + c) == x
  }

  lemma PackedHolds(words: seq<int>, n: nat, i: nat, c: nat)
    requires Words(words) && i * n + c < |words|
    ensures HoldsAt(PackU16(words), n, i, c, words[i * n + c])
  {
    LittleEndian(words, [], i * n + c);
  }

  // the words of u come polynomial by polynomial, those of v behind them
  lemma CommitWordsRead(u: seq<Poly>, v: Poly, p: Params, j: nat, c: nat)
    requires p.Valid() && IsVector(u, p.k, p.n) && IsPoly(v, p.n, p.q) && j < p.k && c < p.n
    requires forall i :: 0 <= i < p.k ==> IsPoly(u[i], p.n, p.q)
    ensures Words(Flat(u) + v)
    ensures HoldsAt(PackU16(Flat(u) + v), p.n, j, c, u[j][c])
    ensures HoldsAt(PackU16(Flat(u) + v), p.n, p.k, c, v[c])
  {
    CommitWords(u, v, p);
    FlatAt(u, p.n, j, c);
    PackedHolds(Flat(u) + v, p.n, j, c);
    PackedHolds(Flat(u) + v, p.n, p.k, c);
  }

  /** A published key is the seed, then the words of t polynomial by polynomial. */
  lemma KeyBytesRead(h: Hashes, seed: seq<Byte>, p: Params, i: nat, c: nat)
    requires p.Valid() && i < p.k && c < p.n
    ensures var bytes := PublishedKey(h, seed, p);
            && |seed| <= |bytes| && bytes[..|seed|] == seed
            && HoldsAt(bytes[|seed|..], p.n, i, c, KeysOf(h, seed, p).t[i][c])
  {
    KeyWords(h, seed, p);
    PackedBehind(seed, KeysOf(h, seed, p).t, p.n, i, c);
  }

  lemma PackedBehind(prefix: seq<Byte>, v: seq<Poly>, n: nat, i: nat, c: nat)
    requires IsVector(v, |v|, n) && Words(Flat(v)) && i < |v| && c < n
    ensures var bytes := prefix + PackU16(Flat(v));
            bytes[..|prefix|] == prefix && HoldsAt(bytes[|prefix|..], n, i, c, v[i][c])
  {
    FlatAt(v, n, i, c);
    PackedHolds(Flat(v), n, i, c);
    Behind(prefix, PackU16(Flat(v)));
  }

  lemma Behind(a: seq<Byte>, b: seq<Byte>)
    ensures (a + b)[..|a|] == a && (a + b)[|a|..] == b
  {
  }

  /** The published words: u_j is column j of A times r, plus e1_j ... */
  lemma CommitEquationU(h: Hashes, A: seq<seq<Poly>>, t: seq<Poly>, m: nat, rSeed: seq<Byte>, p: Params, j: nat, c: nat)
    requires p.Valid() && IsMatrix(A, p.k, p.n) && IsVector(t, p.k, p.n) && j < p.k && c < p.n
    ensures var b, blob := BlindingOf(h, rSeed, p), CommitBlob(h, A, t, m, rSeed, p);
            HoldsAt(blob, p.n, j, c, UCoef(A, b, p, j, c) % p.q)
  {
    var b := BlindingOf(h, rSeed, p);
    UEquation(A, b, p, j, c);
    CommitWordsRead(CommitU(A, b, p), CommitV(t, b, m, p), p, j, c);
  }

  /** ... and v is <t, r> plus e2, plus half of q wherever the amount has a
      binary one. */
  lemma CommitEquationV(h: Hashes, A: seq<seq<Poly>>, t: seq<Poly>, m: nat, rSeed: seq<Byte>, p: Params, c: nat)
    requires p.Valid() && IsMatrix(A, p.k, p.n) && IsVector(t, p.k, p.n) && c < p.n
    ensures var b, blob := BlindingOf(h, rSeed, p), CommitBlob(h, A, t, m, rSeed, p);
            HoldsAt(blob, p.n, p.k, c, VCoef(t, b, m, p, c) % p.q)
  {
    var b := BlindingOf(h, rSeed, p);
    VEquation(t, b, m, p, c);
    CommitWordsRead(CommitU(A, b, p), CommitV(t, b, m, p), p, 0, c);
  }

  // what the amount adds to coefficient c: half of q, rounded down, for a one
  function AmountBit(m: nat, c: nat, p: Params): int {
    if c < p.bits && m / Pow2(c) % 2 == 1 then p.q / 2 else 0
  }

  // coefficient c of <column j, r> + e1_j, before reduction
  function UCoef(A: seq<seq<Poly>>, b: Blinding, p: Params, j: nat, c: nat): int
    requires p.Valid() && IsMatrix(A, p.k, p.n) && j < p.k && c < p.n
    requires IsVector(b.r, p.k, p.n) && IsVector(b.e1, p.k, p.n)
  {
    DotCoef(Column(A, j, p.k, p.n), b.r, p.n, c, p.k) + b.e1[j][c]
  }

  lemma UEquation(A: seq<seq<Poly>>, b: Blinding, p: Params, j: nat, c: nat)
    requires p.Valid() && IsMatrix(A, p.k, p.n) && j < p.k && c < p.n
    requires IsVector(b.r, p.k, p.n) && IsVector(b.e1, p.k, p.n) && |b.e2| == p.n
    ensures CommitU(A, b, p)[j][c] == UCoef(A, b, p, j, c) % p.q
  {
    var row := L.Transpose(A, p.n)[j];
    DotSame(row, Column(A, j, p.k, p.n), b.r, p.n, c, p.k);
    MatVecEquation(L.Transpose(A, p.n), b.r, b.e1, p.n, p.q, j, c);
  }

  // coefficient c of <t, r> + e2 and the amount, before reduction
  function VCoef(t: seq<Poly>, b: Blinding, m: nat, p: Params, c: nat): int
    requires p.Valid() && IsVector(t, p.k, p.n) && IsVector(b.r, p.k, p.n) && |b.e2| == p.n && c < p.n
  {
    DotCoef(t, b.r, p.n, c, p.k) + b.e2[c] + AmountBit(m, c, p)
  }

  lemma VEquation(t: seq<Poly>, b: Blinding, m: nat, p: Params, c: nat)
    requires p.Valid() && IsVector(t, p.k, p.n) && c < p.n
    requires IsVector(b.r, p.k, p.n) && IsVector(b.e1, p.k, p.n) && |b.e2| == p.n
    ensures CommitV(t, b, m, p)[c] == VCoef(t, b, m, p, c) % p.q
  {
    BitIsShift(m, c);
    var dot := DotCoef(t, b.r, p.n, c, p.k);
    assert Encode(m, p.n, p.q, p.bits)[c] == AmountBit(m, c, p);
    StepMod(dot, b.e2[c], p.q);
    StepMod(dot + b.e2[c], AmountBit(m, c, p), p.q);
  }

  /** Polynomial i of a packed vector occupies the words i * n .. i * n + n - 1. */
  lemma {:induction false} FlatAt(v: seq<Poly>, n: nat, i: nat, c: nat)
    requires IsVector(v, |v|, n) && i < |v| && c < n
    ensures i * n + c < |Flat(v)| == |v| * n && Flat(v)[i * n + c] == v[i][c]
  {
    FlatLength(v, n);
    var front := v[..|v| - 1];
    FlatLength(front, n);
    assert |v| * n == |front| * n + n;
    if i < |front| { FlatAt(front, n, i, c); } else { assert i * n == |front| * n; }
  }

  lemma AmountRange()
    ensures Pow2(64) == 0x1_0000_0000_0000_0000 && Pow2(63) == INT64_MAX + 1
  {
    PowSquare(2, 4);
    PowSquare(4, 16);
    PowSquare(8, 256);
    PowSquare(16, 65536);
    PowSquare(32, 0x1_0000_0000);
    assert Pow2(64) == 2 * Pow2(63);
  }

  /** An opening holds only for bytes that the claimed amount and the disclosed
      blinding seed reproduce; what does not decode never opens. */
  lemma OpensOnlyRecomputed(h: Hashes, pk: PublicKey, expected: Option<seq<Byte>>, claimed: int,
                            rSeed: Option<seq<Byte>>, p: Params, c: nat)
    requires p.Valid() && ValidPublicKey(pk, p) && c < p.n && Opens(h, pk, expected, claimed, rSeed, p)
    ensures expected.Some? && rSeed.Some? && 0 <= claimed < Pow2(p.bits)
    ensures HoldsAt(expected.value, p.n, p.k, c, VCoef(pk.t, BlindingOf(h, rSeed.value, p), claimed, p, c) % p.q)
  {
    CommitEquationV(h, pk.A, pk.t, claimed, rSeed.value, p, c);
  }

  /** Sizes of the deployed instance: keys of 1056 bytes for seeds of 32, and
      commitments of 1536 bytes. */
  lemma DeployedSizes(h: Hashes, seed: seq<Byte>, A: seq<seq<Poly>>, t: seq<Poly>, m: nat, rSeed: seq<Byte>)
    requires |seed| == 32 && IsMatrix(A, 2, 256) && IsVector(t, 2, 256)
    ensures ZEROAUDIT.Valid() && ZEROAUDIT.bits == 64
    ensures |PublishedKey(h, seed, ZEROAUDIT)| == 1056
    ensures ParsePublicKey(h, PublishedKey(h, seed, ZEROAUDIT), ZEROAUDIT).Ok?
    ensures |CommitBlob(h, A, t, m, rSeed, ZEROAUDIT)| == 1536
  {
    KeyWords(h, seed, ZEROAUDIT);
    PublishedKeyRoundTrip(h, seed, ZEROAUDIT);
    BlobParses(h, A, t, m, rSeed, ZEROAUDIT);
  }

  lemma PowSquare(e: nat, x: nat)
    requires Pow2(e) == x
    ensures Pow2(2 * e) == x * x
  {
    PowSplit(e, e);
  }

  lemma {:induction false} PowSplit(a: nat, b: nat)
    ensures Pow2(a + b) == Pow2(a) * Pow2(b)
  {
    if a > 0 { PowSplit(a - 1, b); }
  }
}
