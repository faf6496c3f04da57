/** Key material, the commitment kernel and the opening check. */
module LweCommit {
  import opened Wrappers
  import Sums
  import opened Modular
  import opened Negacyclic
  import opened PolyRing
  import opened RingArithmetic
  import opened ModuleLwe
  import opened Samplers
  import opened Packing
  import opened Encoding

  /** Ring degree, module rank, modulus, width of an amount, seed length. */
  datatype Params = Params(n: nat, k: nat, q: int, bits: nat, seedLen: nat) {
    ghost predicate Valid() {
      0 < n && 0 < k <= 256 && 4 * ETA + 1 < q <= 65536 && bits <= n
    }
  }

  const ZEROAUDIT := Params(256, 2, 3329, 64, 32)

  /** The two extendable-output functions of the engine. */
  datatype Hashes = Hashes(shake128: Xof, shake256: Xof)

  // ---- keys ----

  datatype KeyPair = KeyPair(seed: seq<Byte>, A: seq<seq<Poly>>, s: seq<Poly>, e: seq<Poly>, t: seq<Poly>)

  datatype PublicKey = PublicKey(seed: seq<Byte>, A: seq<seq<Poly>>, t: seq<Poly>)

  function KeysOf(h: Hashes, seed: seq<Byte>, p: Params): (kp: KeyPair)
    requires p.Valid()
    ensures IsMatrix(kp.A, p.k, p.n) && IsVector(kp.s, p.k, p.n) && IsVector(kp.e, p.k, p.n)
    ensures |kp.t| == p.k && forall i :: 0 <= i < p.k ==> IsPoly(kp.t[i], p.n, p.q)
  {
    var A := MatrixA(h.shake128, seed, p.k, p.n, p.q);
    var s := NoiseVector(h.shake256, seed, 0, p.k, p.n, p.q);
    var e := NoiseVector(h.shake256, seed, p.k, p.k, p.n, p.q);
    KeyPair(seed, A, s, e, MatVecAdd(A, s, e, p.n, p.q))
  }

  method SampleVector(h: Hashes, seed: seq<Byte>, first: nat, p: Params) returns (v: seq<Poly>)
    requires p.Valid()
    ensures v == NoiseVector(h.shake256, seed, first, p.k, p.n, p.q)
  {
    v := [];
    for i := 0 to p.k
      invariant v == NoiseVector(h.shake256, seed, first, p.k, p.n, p.q)[..i]
    {
      var e := Cbd(h.shake256, seed, first + i, p.n, p.q);
      v := v + [e];
    }
  }

  method Generate(h: Hashes, seed: seq<Byte>, p: Params, numpy: bool) returns (kp: KeyPair)
    requires p.Valid()
    ensures kp == KeysOf(h, seed, p)
  {
    var A := GenMatrixA(h.shake128, seed, p.k, p.n, p.q);
    var s := SampleVector(h, seed, 0, p);
    var e := SampleVector(h, seed, p.k, p);
    var t := ModuleMulAdd(A, s, e, p.n, p.q, numpy);
    kp := KeyPair(seed, A, s, e, t);
  }

  ghost predicate ValidPublicKey(pk: PublicKey, p: Params) {
    IsMatrix(pk.A, p.k, p.n) && IsVector(pk.t, p.k, p.n)
  }

  function PublicKeyBytes(kp: KeyPair): seq<Byte>
    requires Words(Flat(kp.t))
  {
    kp.seed + PackU16(Flat(kp.t))
  }

  /** The auditor's reading of a published key. */
  function ParsePublicKey(h: Hashes, blob: seq<Byte>, p: Params): (r: Result<PublicKey>)
    requires p.Valid()
    ensures r.Ok? ==> ValidPublicKey(r.value, p)
  {
    if |blob| != p.seedLen + p.k * p.n * 2 then Err("malformed public key") else
      var seed := blob[..p.seedLen];
      var flat := UnpackU16(blob[p.seedLen..]);
      Ok(PublicKey(seed, MatrixA(h.shake128, seed, p.k, p.n, p.q), Cut(flat, p.k, p.n)))
  }

  lemma KeyWords(h: Hashes, seed: seq<Byte>, p: Params)
    requires p.Valid()
    ensures Words(Flat(KeysOf(h, seed, p).t)) && |Flat(KeysOf(h, seed, p).t)| == p.k * p.n
  {
    FlatCanonical(KeysOf(h, seed, p).t, p.n, p.q);
    FlatLength(KeysOf(h, seed, p).t, p.n);
  }

  // the key bytes that a prover with this seed publishes
  function PublishedKey(h: Hashes, seed: seq<Byte>, p: Params): seq<Byte>
    requires p.Valid()
  {
    KeyWords(h, seed, p);
    PublicKeyBytes(KeysOf(h, seed, p))
  }

  /** A generated key survives publication exactly when its seed has the
      published seed length; then the auditor holds the same seed, A and t. */
  lemma PublishedKeyRoundTrip(h: Hashes, seed: seq<Byte>, p: Params)
    requires p.Valid()
    ensures var kp := KeysOf(h, seed, p);
            var parsed := ParsePublicKey(h, PublishedKey(h, seed, p), p);
            && (parsed.Ok? <==> |seed| == p.seedLen)
            && (parsed.Ok? ==> parsed.value == PublicKey(seed, kp.A, kp.t))
  {
    var kp := KeysOf(h, seed, p);
    KeyWords(h, seed, p);
    var body := PackU16(Flat(kp.t));
    assert |body| == p.k * p.n * 2;
    if |seed| == p.seedLen {
      assert PublishedKey(h, seed, p)[..p.seedLen] == seed;
      assert PublishedKey(h, seed, p)[p.seedLen..] == body;
      PackUnpack(Flat(kp.t), []);
      CutFlat(kp.t, p.n);
    }
  }

  // ---- the commitment kernel ----

  datatype Blinding = Blinding(r: seq<Poly>, e1: seq<Poly>, e2: Poly)

  /** Blinding vector and errors expanded from one seed; nonces 0 .. 2k. */
  function BlindingOf(h: Hashes, rSeed: seq<Byte>, p: Params): (b: Blinding)
    requires p.Valid()
    ensures IsVector(b.r, p.k, p.n) && IsVector(b.e1, p.k, p.n) && |b.e2| == p.n
  {
    Blinding(NoiseVector(h.shake256, rSeed, 0, p.k, p.n, p.q),
             NoiseVector(h.shake256, rSeed, p.k, p.k, p.n, p.q),
             CbdPoly(h.shake256, rSeed, 2 * p.k, p.n, p.q))
  }

  // u = A^T.r + e1
  function CommitU(A: seq<seq<Poly>>, b: Blinding, p: Params): (u: seq<Poly>)
    requires p.Valid() && IsMatrix(A, p.k, p.n)
    requires IsVector(b.r, p.k, p.n) && IsVector(b.e1, p.k, p.n) && |b.e2| == p.n
    ensures |u| == p.k && forall i :: 0 <= i < p.k ==> IsPoly(u[i], p.n, p.q)
  {
    MatVecAdd(Transpose(A, p.n), b.r, b.e1, p.n, p.q)
  }

  // v = <t, r> + e2 + encode(m)
  function CommitV(t: seq<Poly>, b: Blinding, m: nat, p: Params): (v: Poly)
    requires p.Valid() && IsVector(t, p.k, p.n)
    requires IsVector(b.r, p.k, p.n) && IsVector(b.e1, p.k, p.n) && |b.e2| == p.n
    ensures IsPoly(v, p.n, p.q)
  {
    MaskedMessage(t, b.r, b.e2, Encode(m, p.n, p.q, p.bits), p.n, p.q)
  }

  lemma CommitWords(u: seq<Poly>, v: Poly, p: Params)
    requires p.Valid() && |u| == p.k && IsPoly(v, p.n, p.q)
    requires forall i :: 0 <= i < p.k ==> IsPoly(u[i], p.n, p.q)
    ensures Words(Flat(u) + v) && |Flat(u)| == p.k * p.n
  {
    FlatCanonical(u, p.n, p.q);
    FlatLength(u, p.n);
  }

  /** The published bytes for an amount of the domain. */
  function CommitBlob(h: Hashes, A: seq<seq<Poly>>, t: seq<Poly>, m: nat, rSeed: seq<Byte>, p: Params): seq<Byte>
    requires p.Valid() && IsMatrix(A, p.k, p.n) && IsVector(t, p.k, p.n)
  {
    var b := BlindingOf(h, rSeed, p);
    var u, v := CommitU(A, b, p), CommitV(t, b, m, p);
    CommitWords(u, v, p);
    PackU16(Flat(u) + v)
  }

  method CommitCore(h: Hashes, A: seq<seq<Poly>>, t: seq<Poly>, amount: int, rSeed: seq<Byte>, p: Params, numpy: bool)
    returns (blob: Result<seq<Byte>>)
    requires p.Valid() && IsMatrix(A, p.k, p.n) && IsVector(t, p.k, p.n)
    ensures blob.Ok? <==> 0 <= amount < Pow2(p.bits)
    ensures blob.Ok? ==> blob.value == CommitBlob(h, A, t, amount, rSeed, p)
  {
    var r := SampleVector(h, rSeed, 0, p);
    var e1 := SampleVector(h, rSeed, p.k, p);
    var e2 := Cbd(h.shake256, rSeed, 2 * p.k, p.n, p.q);
    ghost var b := BlindingOf(h, rSeed, p);
    var u := ModuleMulAdd(Transpose(A, p.n), r, e1, p.n, p.q, numpy);
    var v := InnerProduct(t, r, p.n, p.q, numpy);
    v := Add(v, e2, p.q);
    var m := EncodeAmount(amount, p.n, p.q, p.bits);
    if m.Err? {
      return Err(m.error);
    }
    v := Add(v, m.value, p.q);
    CommitWords(u, v, p);
    blob := Ok(PackU16(Flat(u) + v));
  }

  /** Check a disclosed opening.  expected and rSeed are the decoded commitment
      and blinding seed, None when the decoding failed. */
  method OpenCommitment(h: Hashes, pk: PublicKey, expected: Option<seq<Byte>>, amount: int,
                        rSeed: Option<seq<Byte>>, p: Params, numpy: bool) returns (ok: bool)
    requires p.Valid() && ValidPublicKey(pk, p)
    ensures ok <==> Opens(h, pk, expected, amount, rSeed, p)
  {
    if expected.None? || rSeed.None? {
      return false;
    }
    var recomputed := CommitCore(h, pk.A, pk.t, amount, rSeed.value, p, numpy);
    if recomputed.Err? {
      return false;
    }
    ok := expected.value == recomputed.value;
  }

  ghost predicate Opens(h: Hashes, pk: PublicKey, expected: Option<seq<Byte>>, amount: int,
                        rSeed: Option<seq<Byte>>, p: Params)
    requires p.Valid() && ValidPublicKey(pk, p)
  {
    expected.Some? && rSeed.Some? && 0 <= amount < Pow2(p.bits) &&
    expected.value == CommitBlob(h, pk.A, pk.t, amount, rSeed.value, p)
  }

  // ---- what a commitment contains ----

  // the two parts of a published commitment
  function ParseU(blob: seq<Byte>, p: Params): (u: seq<Poly>)
    requires |blob| == 2 * (p.k * p.n + p.n)
    ensures IsVector(u, p.k, p.n)
  {
    Cut(UnpackU16(blob)[..p.k * p.n], p.k, p.n)
  }

  function ParseV(blob: seq<Byte>, p: Params): (v: Poly)
    requires |blob| == 2 * (p.k * p.n + p.n)
    ensures |v| == p.n
  {
    UnpackU16(blob)[p.k * p.n..]
  }

  lemma BlobParses(h: Hashes, A: seq<seq<Poly>>, t: seq<Poly>, m: nat, rSeed: seq<Byte>, p: Params)
    requires p.Valid() && IsMatrix(A, p.k, p.n) && IsVector(t, p.k, p.n)
    ensures var blob := CommitBlob(h, A, t, m, rSeed, p);
            && |blob| == 2 * (p.k * p.n + p.n)
            && ParseU(blob, p) == CommitU(A, BlindingOf(h, rSeed, p), p)
            && ParseV(blob, p) == CommitV(t, BlindingOf(h, rSeed, p), m, p)
  {
    var b := BlindingOf(h, rSeed, p);
    var u, v := CommitU(A, b, p), CommitV(t, b, m, p);
    CommitWords(u, v, p);
    PackUnpack(Flat(u) + v, []);
    CutFlat(u, p.n);
    assert (Flat(u) + v)[..p.k * p.n] == Flat(u);
    assert (Flat(u) + v)[p.k * p.n..] == v;
  }

  // ---- binding ----

  // equal sums with a common operand have congruent other operands
  lemma AddCancel(a: Poly, b: Poly, c: Poly, n: nat, q: int)
    requires q > 0 && |a| == n && IsPoly(b, n, q) && IsPoly(c, n, q) && Add(a, b, q) == Add(a, c, q)
    ensures b == c
  {
    forall i | 0 <= i < n
      ensures Cong(b[i], c[i], q)
    {
      assert Add(a, b, q)[i] == Add(a, c, q)[i];
      SameModCong(a[i] + b[i], a[i] + c[i], q);
      CongRefl(a[i], q);
      CongSub(a[i] + b[i], a[i] + c[i], a[i], a[i], q);
    }
    CongPolyEqual(b, c, n, q);
  }

  /** At a fixed blinding seed the kernel is injective in the amount, for every
      matrix and every vector t, canonical or not. */
  lemma FixedSeedBinding(h: Hashes, A: seq<seq<Poly>>, t: seq<Poly>, m: nat, m': nat, rSeed: seq<Byte>, p: Params)
    requires p.Valid() && IsMatrix(A, p.k, p.n) && IsVector(t, p.k, p.n)
    requires m < Pow2(p.bits) && m' < Pow2(p.bits)
    ensures CommitBlob(h, A, t, m, rSeed, p) == CommitBlob(h, A, t, m', rSeed, p) <==> m == m'
  {
    BlobParses(h, A, t, m, rSeed, p);
    BlobParses(h, A, t, m', rSeed, p);
    var b := BlindingOf(h, rSeed, p);
    if CommitV(t, b, m, p) == CommitV(t, b, m', p) {
      AddCancel(Add(Dot(t, b.r, p.n, p.q), b.e2, p.q), Encode(m, p.n, p.q, p.bits),
                Encode(m', p.n, p.q, p.bits), p.n, p.q);
      EncodeInjective(m, m', p.n, p.q, p.bits);
    }
  }

  /** Whoever holds only the published key bytes can open a commitment for the
      committed amount and for no other integer. */
  lemma OpeningExact(h: Hashes, seed: seq<Byte>, m: nat, claimed: int, rSeed: seq<Byte>, p: Params)
    requires p.Valid() && |seed| == p.seedLen && m < Pow2(p.bits)
    ensures var kp := KeysOf(h, seed, p);
            var pk := ParsePublicKey(h, PublishedKey(h, seed, p), p);
            && pk.Ok?
            && (Opens(h, pk.value, Some(CommitBlob(h, kp.A, kp.t, m, rSeed, p)), claimed, Some(rSeed), p)
                <==> claimed == m)
  {
    var kp := KeysOf(h, seed, p);
    PublishedKeyRoundTrip(h, seed, p);
    if 0 <= claimed < Pow2(p.bits) { FixedSeedBinding(h, kp.A, kp.t, m, claimed, rSeed, p); }
  }

  // distinct byte strings with one digest
  ghost predicate BlobCollision(sha: seq<Byte> -> string, x: seq<Byte>, y: seq<Byte>) {
    x != y && sha(x) == sha(y)
  }

  /** The published binding hash binds as well: at one blinding seed, amounts
      with one binding hash are equal, or their two commitments collide. */
  lemma BindingHashBinds(h: Hashes, sha: seq<Byte> -> string, A: seq<seq<Poly>>, t: seq<Poly>,
                         m: nat, m': nat, rSeed: seq<Byte>, p: Params)
    requires p.Valid() && IsMatrix(A, p.k, p.n) && IsVector(t, p.k, p.n)
    requires m < Pow2(p.bits) && m' < Pow2(p.bits)
    ensures var b, b' := CommitBlob(h, A, t, m, rSeed, p), CommitBlob(h, A, t, m', rSeed, p);
            sha(b) == sha(b') <==> m == m' || BlobCollision(sha, b, b')
  {
    FixedSeedBinding(h, A, t, m, m', rSeed, p);
  }

  // ---- the identity of a commitment ----

  // the residual of a commitment, lifted coefficient by coefficient to [-2, 2] inputs
  function CenteredResidual(kp: KeyPair, b: Blinding, p: Params): (w: seq<int>)
    requires p.Valid() && IsVector(kp.s, p.k, p.n) && IsVector(kp.e, p.k, p.n)
    requires IsVector(b.r, p.k, p.n) && IsVector(b.e1, p.k, p.n) && |b.e2| == p.n
    ensures |w| == p.n
  {
    ResidualZ(CenteredVector(kp.s, p.q), CenteredVector(kp.e, p.q), CenteredVector(b.r, p.q),
              CenteredVector(b.e1, p.q), CenteredPoly(b.e2, p.q), p.n)
  }

  /** For every key seed, blinding seed and amount: subtracting <s, u> from the
      published v leaves the encoded amount plus a residual that lifts to
      integers of size at most 2*k*n*eta^2 + eta. */
  lemma KernelIdentity(h: Hashes, seed: seq<Byte>, m: nat, rSeed: seq<Byte>, p: Params)
    requires p.Valid()
    ensures var kp := KeysOf(h, seed, p);
            var b := BlindingOf(h, rSeed, p);
            var blob := CommitBlob(h, kp.A, kp.t, m, rSeed, p);
            var w := CenteredResidual(kp, b, p);
            && Bounded(w, 2 * p.k * (p.n * (ETA * ETA)) + ETA)
            && |blob| == 2 * (p.k * p.n + p.n)
            && Add(ParseV(blob, p), Neg(Dot(kp.s, ParseU(blob, p), p.n, p.q), p.q), p.q)
               == Reduce(AddZ(Encode(m, p.n, p.q, p.bits), w), p.q)
            && CongPoly(Residual(kp.s, kp.e, b.r, b.e1, b.e2, p.n, p.q), w, p.q)
  {
    var kp := KeysOf(h, seed, p);
    var b := BlindingOf(h, rSeed, p);
    var x := Encode(m, p.n, p.q, p.bits);
    var left := Unmask(kp.t, CommitU(kp.A, b, p), kp.s, b.r, b.e2, x, p.n, p.q);
    var res := ResidualZ(kp.s, kp.e, b.r, b.e1, b.e2, p.n);
    BlobParses(h, kp.A, kp.t, m, rSeed, p);
    NoiseVectorSmall(h.shake256, seed, 0, p.k, p.n, p.q);
    NoiseVectorSmall(h.shake256, seed, p.k, p.k, p.n, p.q);
    NoiseVectorSmall(h.shake256, rSeed, 0, p.k, p.n, p.q);
    NoiseVectorSmall(h.shake256, rSeed, p.k, p.k, p.n, p.q);
    CbdSmall(h.shake256, rSeed, 2 * p.k, p.n, p.q);
    ResidualBounded(kp.s, kp.e, b.r, b.e1, b.e2, p.n, p.q, ETA);
    var w := CenteredResidual(kp, b, p);
    ModuleLweIdentityZ(kp.A, kp.s, kp.e, b.r, b.e1, b.e2, x, p.n, p.q);
    CongPolyRefl(x, p.q);
    AddZCong(x, x, res, w, p.q);
    CongPolyTrans(left, AddZ(x, res), AddZ(x, w), p.q);
    LeftIsReduced(left, AddZ(x, w), p.n, p.q);
    ResidualOf(kp.s, kp.e, b.r, b.e1, b.e2, p.n, p.q);
    CongPolyTrans(Residual(kp.s, kp.e, b.r, b.e1, b.e2, p.n, p.q), res, w, p.q);
  }

  lemma LeftIsReduced(a: Poly, b: seq<int>, n: nat, q: int)
    requires q > 0 && IsPoly(a, n, q) && CongPoly(a, b, q)
    ensures a == Reduce(b, q)
  {
    ReduceCong(b, q);
    CongPolySym(Reduce(b, q), b, q);
    CongPolyTrans(a, b, Reduce(b, q), q);
    CongPolyEqual(a, Reduce(b, q), n, q);
  }

  /** The deployed parameters are admissible, and no number the convolution path
      forms leaves the signed 64-bit range - not even for a public key whose
      coefficients are arbitrary 16-bit words. */
  lemma DeployedParameters(a: seq<int>, b: seq<int>, k: int, m: nat)
    requires |a| == |b| == ZEROAUDIT.n && m <= |a|
    requires forall i :: 0 <= i < |a| ==> 0 <= a[i] <= 65535
    requires forall i :: 0 <= i < |b| ==> 0 <= b[i] < ZEROAUDIT.q
    ensures ZEROAUDIT.Valid() && ZEROAUDIT.n * (3328 * 3328) == 2_835_349_504
    ensures 0 <= Sums.Sum(i => At(a, i) * At(b, k - i), m) <= INT64_MAX
    ensures -INT64_MAX <= MulCoef(a, b, k) <= INT64_MAX
    ensures (forall i :: 0 <= i < |a| ==> a[i] < ZEROAUDIT.q) ==>
              && Sums.Sum(i => At(a, i) * At(b, k - i), m) <= ZEROAUDIT.n * (3328 * 3328)
              && -(ZEROAUDIT.n * (3328 * 3328)) <= MulCoef(a, b, k) <= ZEROAUDIT.n * (3328 * 3328)
  {
    ConvolutionBound(a, b, 65535, 3328, k, m);
    if forall i :: 0 <= i < |a| ==> a[i] < ZEROAUDIT.q {
      ConvolutionBound(a, b, 3328, 3328, k, m);
    }
  }
}
