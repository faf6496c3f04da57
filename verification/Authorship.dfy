/** What the five checks establish together, for honest and for altered records. */
module Authorship {
  import opened Wrappers
  import opened Records
  import opened ChainWalk
  import opened Verifier
  import opened VerifierCounts
  import opened Store
  import opened Encoding
  import opened Samplers
  import L = LweCommit

  // the prover's signing function and the verifier's key belong together
  ghost predicate KeysMatch(c: Crypto, key: string, sign: string -> string) {
    key != "" && forall p :: sign(p) != "" && c.verifySig(key, sign(p), p)
  }

  // what the lattice engine returned is what the verifier will recompute
  ghost predicate GoodCommitment(c: Crypto, x: Committed) {
    x.commitment != "" && c.blobHash(x.commitment) == Some(x.binding)
    && forall k :: k in c.profile ==> k in x.lwe && x.lwe[k] == c.profile[k]
  }

  /** An exported record passes every check of a verifier that holds the
      prover's key and stands at its predecessor, or at no record yet. */
  lemma HonestExportVerifies(cfg: Config, c: Crypto, key: string, st: State, id: string, x: Committed,
                             status: Status, v: VState)
    requires cfg.H == c.H && KeysMatch(c, key, cfg.sign) && GoodCommitment(c, x)
    requires v.pubkey == Some(key) && (v.expectedPrev == None || v.expectedPrev == Some(st.head))
    ensures var e := Export(NewRecord(cfg, st, id, x, status));
            && !AnyFailed(Checks(c, v, e))
            && (forall i :: 0 <= i < |Checks(c, v, e)| ==> Checks(c, v, e)[i].verdict == PASS)
            && Verify(c, v, e).stats.verified == v.stats.verified + 1
  {
    var r := NewRecord(cfg, st, id, x, status);
    var e := Export(r);
    assert cfg.sign(SigningPayload(id, x.binding, x.ts, r.chain)) != "";
    assert SignatureVerdict(c, v.pubkey, e) == PASS;
    assert BindingVerdict(c, e) == PASS;
    assert ChainLinkOk(c, v.expectedPrev, e);
    assert LweParamsOk(c, e) && PiiOk(c, e);
  }

  ghost predicate SignedRecord(log: seq<Record>, i: nat, payload: string) {
    i < |log| && payload == SigningPayload(log[i].txn, log[i].binding, log[i].ts, log[i].chain)
  }

  // the signature scheme accepts only payloads that the prover signed
  ghost predicate Unforged(c: Crypto, key: string, log: seq<Record>) {
    forall sig, p :: c.verifySig(key, sig, p) ==> exists i: nat :: SignedRecord(log, i, p)
  }

  ghost predicate SameSigned(r: Record, e: Envelope) {
    r.txn == e.Txn() && r.binding == e.Binding() && r.ts == e.Ts() && r.chain == e.Chain()
  }

  // a text as SHA3-256 in hexadecimal yields it
  ghost predicate DigestText(s: string) {
    |s| == HEX_WIDTH && SEPARATOR !in s
  }

  // the verifier's two hash functions yield digests
  ghost predicate HashesAreDigests(c: Crypto) {
    && (forall x :: DigestText(c.H(x)))
    && (forall b :: c.blobHash(b).Some? ==> DigestText(c.blobHash(b).value))
  }

  // the two hashes the prover signed contain no separator; the ids may
  ghost predicate SignedDigests(log: seq<Record>) {
    forall i :: 0 <= i < |log| ==> SEPARATOR !in log[i].binding && SEPARATOR !in log[i].chain
  }

  ghost predicate SeparatorFreeIds(log: seq<Record>) {
    forall i :: 0 <= i < |log| ==> SEPARATOR !in log[i].txn
  }

  lemma SignedPayload(c: Crypto, key: string, log: seq<Record>, e: Envelope) returns (i: nat)
    requires Unforged(c, key, log) && SignatureVerdict(c, Some(key), e) == PASS
    ensures SignedRecord(log, i, SigningPayload(e.Txn(), e.Binding(), e.Ts(), e.Chain()))
  {
    var p := SigningPayload(e.Txn(), e.Binding(), e.Ts(), e.Chain());
    assert c.verifySig(key, e.signature.value, p);
    i :| SignedRecord(log, i, p);
  }

  // whether recomputed or judged by its format
  lemma BindingPassedIsDigest(c: Crypto, e: Envelope)
    requires HashesAreDigests(c) && BindingVerdict(c, e) == PASS
    ensures DigestText(e.Binding())
  {
  }

  lemma AllPassed(c: Crypto, v: VState, e: Envelope)
    requires !AnyFailed(Checks(c, v, e)) && Truthy(v.pubkey)
    ensures SignatureVerdict(c, v.pubkey, e) == PASS && BindingVerdict(c, e) == PASS
    ensures ChainLinkOk(c, v.expectedPrev, e)
  {
    var checks := Checks(c, v, e);
    assert checks[0].verdict != FAIL && checks[1].verdict != FAIL && checks[2].verdict != FAIL;
  }

  /** Given an unforgeable scheme and an installed key, a record that passes the
      five checks agrees with one signed record in all four signed fields: none
      of them was altered - whatever the ids contain, on either side. */
  lemma VerifiedIsAuthentic(c: Crypto, v: VState, key: string, log: seq<Record>, e: Envelope)
    requires Unforged(c, key, log) && SignedDigests(log) && HashesAreDigests(c)
    requires v.pubkey == Some(key) && key != "" && !AnyFailed(Checks(c, v, e))
    ensures exists i :: 0 <= i < |log| && SameSigned(log[i], e)
  {
    AllPassed(c, v, e);
    BindingPassedIsDigest(c, e);
    assert DigestText(c.H(e.Preimage()));
    var i := SignedPayload(c, key, log, e);
    PayloadFromRight(log[i].txn, log[i].binding, log[i].ts, log[i].chain, e.Txn(), e.Binding(), e.Ts(), e.Chain());
    assert SameSigned(log[i], e);
  }

  /** The signature check alone gives the same for a log of separator-free ids,
      with nothing assumed of the arriving record or of the hash functions. */
  lemma SignatureIsAuthentic(c: Crypto, key: string, log: seq<Record>, e: Envelope)
    requires Unforged(c, key, log) && SignedDigests(log) && SeparatorFreeIds(log)
    requires SignatureVerdict(c, Some(key), e) == PASS
    ensures exists i :: 0 <= i < |log| && SameSigned(log[i], e)
  {
    var i := SignedPayload(c, key, log, e);
    PayloadInjective(log[i].txn, log[i].binding, log[i].ts, log[i].chain, e.Txn(), e.Binding(), e.Ts(), e.Chain());
    assert SameSigned(log[i], e);
  }

  ghost predicate BindingsPass(c: Crypto, es: seq<Envelope>) {
    forall i :: 0 <= i < |es| ==> BindingVerdict(c, es[i]) == PASS
  }

  /** The binding check fixes the width that the walk leaves open: two linked
      chains with one head whose records all pass it agree in every link, or a
      position exhibits a collision. */
  lemma CheckedChainsAgree(c: Crypto, a: seq<Envelope>, b: seq<Envelope>)
    requires HashesAreDigests(c) && Linked(c.H, a) && Linked(c.H, b) && BindingsPass(c, a) && BindingsPass(c, b)
    requires |a| == |b| > 0 && a[|a| - 1].Chain() == b[|b| - 1].Chain()
    requires |a[0].Prev()| == |b[0].Prev()|
    ensures (forall i :: 0 <= i < |a| ==> SameLink(a[i], b[i])) || CollidingTail(c.H, a, b)
  {
    forall x ensures |c.H(x)| == HEX_WIDTH { assert DigestText(c.H(x)); }
    TamperEvidence(c.H, a, b);
    forall i | 0 <= i < |a| && !CollidingTail(c.H, a, b)
      ensures SameLink(a[i], b[i])
    {
      BindingPassedIsDigest(c, a[i]);
      BindingPassedIsDigest(c, b[i]);
      assert Agree(a[i], b[i]);
    }
  }

  /** Whatever else it carries, a record is never counted as verified if it lacks
      an agreed lattice parameter or carries another value for it, if it has a
      forbidden field, or if it admits personal data. */
  lemma DowngradeOrLeakFails(c: Crypto, v: VState, e: Envelope, name: string)
    requires || (name in c.profile && name !in e.lweParams.GetOr(map[]))
             || (name in c.profile && e.lweParams.GetOr(map[])[name] != c.profile[name])
             || (name in c.forbidden && name in e.extra)
             || e.piiBytes.GetOr(0) != 0
    ensures AnyFailed(Checks(c, v, e)) && Verify(c, v, e).stats.verified == v.stats.verified
  {
    VerifiedIff(c, v, e);
    assert !(ProfileFine(c, e) && PrivacyFine(c, e));
  }

  /** The seven amount-bearing fields are forbidden in the deployed verifier. */
  lemma DeployedForbids(H: Hash, verifySig: (string, string, string) -> bool, blobHash: string -> Option<string>,
                        v: VState, e: Envelope)
    requires || "amount" in e.extra || "amount_cents" in e.extra || "account_id" in e.extra
             || "counterparty_id" in e.extra || "currency" in e.extra || "metadata" in e.extra
             || "payload_hash" in e.extra
    ensures AnyFailed(Checks(Deployed(H, verifySig, blobHash), v, e))
  {
    assert !PiiOk(Deployed(H, verifySig, blobHash), e);
    assert Checks(Deployed(H, verifySig, blobHash), v, e)[4].verdict == FAIL;
  }

  // ---- one disclosed transaction, from the engine to the auditor ----

  /** The deployed profile and field list. */
  function Deployed(H: Hash, verifySig: (string, string, string) -> bool, blobHash: string -> Option<string>): Crypto {
    Crypto(H, verifySig, blobHash, EXPECTED_LWE, FORBIDDEN_FIELDS)
  }

  /** Base64 and SHA3-256, as far as they matter here. */
  datatype Codec = Codec(encode: seq<Byte> -> string, decode: string -> Option<seq<Byte>>, sha: seq<Byte> -> string)

  ghost predicate RoundTrips(codec: Codec) {
    forall b :: codec.decode(codec.encode(b)) == Some(b) && (b != [] ==> codec.encode(b) != "")
  }

  // the verifier's hash of a published commitment
  function BlobHash(codec: Codec): string -> Option<string> {
    s => if codec.decode(s).None? then None else Some(codec.sha(codec.decode(s).value))
  }

  /** A commitment that does not decode fails, whatever hash is advertised. */
  lemma UndecodableFails(H: Hash, verifySig: (string, string, string) -> bool, codec: Codec, v: VState, e: Envelope)
    requires e.commitment.GetOr("") != "" && codec.decode(e.commitment.value) == None
    ensures var c := Deployed(H, verifySig, BlobHash(codec));
            && AnyFailed(Checks(c, v, e))
            && Verify(c, v, e).stats.bindingFailed == v.stats.bindingFailed + 1
  {
    SwappedCommitmentFails(Deployed(H, verifySig, BlobHash(codec)), v, e);
  }

  function PublishedParams(p: L.Params): map<string, int> {
    map["n" := p.n, "k" := p.k, "q" := p.q, "eta" := ETA, "amount_bits" := p.bits]
  }

  // what the engine returns for an amount of the domain
  function CommitOf(codec: Codec, h: L.Hashes, keySeed: seq<Byte>, m: nat, rSeed: seq<Byte>, ts: int): Committed {
    var kp := L.KeysOf(h, keySeed, L.ZEROAUDIT);
    var blob := L.CommitBlob(h, kp.A, kp.t, m, rSeed, L.ZEROAUDIT);
    Committed(codec.encode(blob), codec.sha(blob), PublishedParams(L.ZEROAUDIT), ts)
  }

  lemma EngineOutputIsGood(H: Hash, verifySig: (string, string, string) -> bool, codec: Codec, h: L.Hashes,
                           keySeed: seq<Byte>, m: nat, rSeed: seq<Byte>, ts: int)
    requires RoundTrips(codec)
    ensures GoodCommitment(Deployed(H, verifySig, BlobHash(codec)), CommitOf(codec, h, keySeed, m, rSeed, ts))
  {
    var kp := L.KeysOf(h, keySeed, L.ZEROAUDIT);
    L.BlobParses(h, kp.A, kp.t, m, rSeed, L.ZEROAUDIT);
    var blob := L.CommitBlob(h, kp.A, kp.t, m, rSeed, L.ZEROAUDIT);
    assert codec.decode(codec.encode(blob)) == Some(blob) && |blob| == 1536;
  }

  /** For every key, blinding seed and amount: the exported record passes all
      five checks, and an auditor who holds the published key bytes opens the
      exported commitment for the committed amount and for no other integer. */
  lemma DisclosureEndToEnd(cfg: Config, verifySig: (string, string, string) -> bool, codec: Codec, key: string,
                           h: L.Hashes, keySeed: seq<Byte>, m: nat, rSeed: seq<Byte>, ts: int,
                           st: State, id: string, status: Status, v: VState, claimed: int)
    requires RoundTrips(codec) && KeysMatch(Deployed(cfg.H, verifySig, BlobHash(codec)), key, cfg.sign)
    requires |keySeed| == L.ZEROAUDIT.seedLen && m < Pow2(L.ZEROAUDIT.bits)
    requires v.pubkey == Some(key) && (v.expectedPrev == None || v.expectedPrev == Some(st.head))
    ensures var c := Deployed(cfg.H, verifySig, BlobHash(codec));
            var e := Export(NewRecord(cfg, st, id, CommitOf(codec, h, keySeed, m, rSeed, ts), status));
            var pk := L.ParsePublicKey(h, L.PublishedKey(h, keySeed, L.ZEROAUDIT), L.ZEROAUDIT);
            && !AnyFailed(Checks(c, v, e))
            && pk.Ok? && e.commitment.Some?
            && (L.Opens(h, pk.value, codec.decode(e.commitment.value), claimed, Some(rSeed), L.ZEROAUDIT)
                <==> claimed == m)
  {
    var c := Deployed(cfg.H, verifySig, BlobHash(codec));
    var x := CommitOf(codec, h, keySeed, m, rSeed, ts);
    EngineOutputIsGood(cfg.H, verifySig, codec, h, keySeed, m, rSeed, ts);
    HonestExportVerifies(cfg, c, key, st, id, x, status, v);
    L.OpeningExact(h, keySeed, m, claimed, rSeed, L.ZEROAUDIT);
    var kp := L.KeysOf(h, keySeed, L.ZEROAUDIT);
    assert codec.decode(x.commitment) == Some(L.CommitBlob(h, kp.A, kp.t, m, rSeed, L.ZEROAUDIT));
  }
}
