/** What one report of the verifier means on the fields of the record, and what
    its counters count over whole streams. */
module VerifierCounts {
  import opened Wrappers
  import opened Records
  import opened ChainWalk
  import opened Verifier

  // ---- one record, field by field ----

  // what a signature must cover, and whether one is asked for
  ghost predicate SignatureFine(c: Crypto, key: Option<string>, e: Envelope) {
    key.GetOr("") != "" ==>
      && e.signature.GetOr("") != ""
      && c.verifySig(key.value, e.signature.value, SigningPayload(e.Txn(), e.Binding(), e.Ts(), e.Chain()))
  }

  // a published commitment decides; without one only the format is left
  ghost predicate BindingFine(c: Crypto, e: Envelope) {
    if e.commitment.GetOr("") != "" then c.blobHash(e.commitment.value) == Some(e.Binding())
    else |e.Binding()| == 64 && forall i :: 0 <= i < 64 ==> e.Binding()[i] in "0123456789abcdef"
  }

  ghost predicate ChainFine(c: Crypto, expected: Option<string>, e: Envelope) {
    && ComputeChainHash(c.H, e.Prev(), e.Binding(), e.Txn(), e.Ts()) == e.Chain()
    && (expected == None || expected == Some(e.Prev()))
  }

  // every agreed parameter is there with the agreed value
  ghost predicate ProfileFine(c: Crypto, e: Envelope) {
    forall key :: key in c.profile ==>
                    e.lweParams.Some? && key in e.lweParams.value && e.lweParams.value[key] == c.profile[key]
  }

  ghost predicate PrivacyFine(c: Crypto, e: Envelope) {
    (e.piiBytes == None || e.piiBytes == Some(0)) && forall field :: field in c.forbidden ==> field !in e.extra
  }

  lemma BindingPasses(c: Crypto, e: Envelope)
    ensures BindingVerdict(c, e) == PASS <==> BindingFine(c, e)
    ensures BindingVerdict(c, e) != SKIP
  {
    if !Truthy(e.commitment) {
      forall ch: char
        ensures ch in "0123456789abcdef" <==> '0' <= ch <= '9' || 'a' <= ch <= 'f'
      {
        HexLetter(ch);
      }
    }
  }

  lemma HexLetter(ch: char)
    ensures ch in "0123456789abcdef" <==> '0' <= ch <= '9' || 'a' <= ch <= 'f'
  {
    var hex := "0123456789abcdef";
    assert hex[0] == '0' && hex[1] == '1' && hex[2] == '2' && hex[3] == '3' && hex[4] == '4' && hex[5] == '5';
    assert hex[6] == '6' && hex[7] == '7' && hex[8] == '8' && hex[9] == '9' && hex[10] == 'a' && hex[11] == 'b';
    assert hex[12] == 'c' && hex[13] == 'd' && hex[14] == 'e' && hex[15] == 'f';
  }

  lemma OthersPass(c: Crypto, st: VState, e: Envelope)
    ensures SignatureVerdict(c, st.pubkey, e) != FAIL <==> SignatureFine(c, st.pubkey, e)
    ensures ChainLinkOk(c, st.expectedPrev, e) <==> ChainFine(c, st.expectedPrev, e)
    ensures LweParamsOk(c, e) <==> ProfileFine(c, e)
    ensures PiiOk(c, e) <==> PrivacyFine(c, e)
  {
  }

  /** A record is verified exactly when all five conditions hold of its fields. */
  lemma VerifiedIff(c: Crypto, st: VState, e: Envelope)
    ensures !AnyFailed(Checks(c, st, e)) <==>
              && SignatureFine(c, st.pubkey, e) && BindingFine(c, e) && ChainFine(c, st.expectedPrev, e)
              && ProfileFine(c, e) && PrivacyFine(c, e)
  {
    BindingPasses(c, e);
    OthersPass(c, st, e);
    FailedIff(c, st, e);
  }

  lemma FailedIff(c: Crypto, st: VState, e: Envelope)
    ensures AnyFailed(Checks(c, st, e)) <==>
              || SignatureVerdict(c, st.pubkey, e) == FAIL || BindingVerdict(c, e) == FAIL
              || !ChainLinkOk(c, st.expectedPrev, e) || !LweParamsOk(c, e) || !PiiOk(c, e)
  {
    var checks := Checks(c, st, e);
    assert checks[0].verdict == SignatureVerdict(c, st.pubkey, e) && checks[1].verdict == BindingVerdict(c, e);
    assert checks[2].verdict == Judge(ChainLinkOk(c, st.expectedPrev, e));
    assert checks[3].verdict == Judge(LweParamsOk(c, e)) && checks[4].verdict == Judge(PiiOk(c, e));
  }

  /** A commitment swapped underneath its header is found out, whatever the
      advertised hash looks like. */
  lemma SwappedCommitmentFails(c: Crypto, st: VState, e: Envelope)
    requires e.commitment.GetOr("") != "" && c.blobHash(e.commitment.value) != Some(e.Binding())
    ensures AnyFailed(Checks(c, st, e))
    ensures var before, after := st.stats, Verify(c, st, e).stats;
            && after.bindingFailed == before.bindingFailed + 1 && after.bindingOk == before.bindingOk
            && after.failed == before.failed + 1 && after.verified == before.verified
  {
    assert Checks(c, st, e)[1].verdict == FAIL;
  }

  /** So is a downgraded lattice: one parameter missing or different is enough. */
  lemma DowngradeFails(c: Crypto, st: VState, e: Envelope, key: string)
    requires key in c.profile
    requires e.lweParams == None || key !in e.lweParams.value || e.lweParams.value[key] != c.profile[key]
    ensures AnyFailed(Checks(c, st, e))
    ensures var before, after := st.stats, Verify(c, st, e).stats;
            && after.lweFailed == before.lweFailed + 1 && after.lweOk == before.lweOk
            && after.failed == before.failed + 1 && after.verified == before.verified
  {
    assert Checks(c, st, e)[3].verdict == FAIL;
  }

  // ---- whole streams ----

  /** One verified delivery: the record and the checks that were reported. */
  datatype Outcome = Outcome(e: Envelope, checks: seq<Check>)

  function OutcomeOf(c: Crypto, st: VState, ev: Event): seq<Outcome> {
    if ev.Deliver? then [Outcome(ev.e, Checks(c, st, ev.e))] else []
  }

  function Outcomes(c: Crypto, st: VState, evs: seq<Event>): seq<Outcome> {
    if evs == [] then [] else
      var front := evs[..|evs| - 1];
      Outcomes(c, st, front) + OutcomeOf(c, Run(c, st, front), evs[|evs| - 1])
  }

  predicate Hit(o: Outcome, name: CheckName, verdict: Verdict) {
    Check(name, verdict) in o.checks
  }

  predicate BlobHit(o: Outcome, verdict: Verdict) {
    Truthy(o.e.commitment) && Hit(o, BINDING_HASH, verdict)
  }

  // how many deliveries got this verdict from this check
  function Hits(outs: seq<Outcome>, name: CheckName, verdict: Verdict): nat {
    if outs == [] then 0
    else Hits(outs[..|outs| - 1], name, verdict) + One(Hit(outs[|outs| - 1], name, verdict))
  }

  // the same among the records that published a commitment
  function BlobHits(outs: seq<Outcome>, verdict: Verdict): nat {
    if outs == [] then 0
    else BlobHits(outs[..|outs| - 1], verdict) + One(BlobHit(outs[|outs| - 1], verdict))
  }

  function Failures(outs: seq<Outcome>): nat {
    if outs == [] then 0 else Failures(outs[..|outs| - 1]) + One(AnyFailed(outs[|outs| - 1].checks))
  }

  function CountTrue(marks: seq<bool>): nat {
    if marks == [] then 0 else CountTrue(marks[..|marks| - 1]) + One(marks[|marks| - 1])
  }

  lemma {:induction false} CountTrueIsCardinality(marks: seq<bool>)
    ensures CountTrue(marks) == |set i: nat | i < |marks| && marks[i]|
  {
    var all := set i: nat | i < |marks| && marks[i];
    if marks == [] {
      assert all == {};
    } else {
      var front, n := marks[..|marks| - 1], |marks| - 1;
      CountTrueIsCardinality(front);
      var before := set i: nat | i < |front| && front[i];
      assert all == before + if marks[n] then {n} else {};
    }
  }

  // which deliveries got this verdict from this check
  function HitMarks(outs: seq<Outcome>, name: CheckName, verdict: Verdict): seq<bool> {
    seq(|outs|, i requires 0 <= i < |outs| => Hit(outs[i], name, verdict))
  }

  function BlobMarks(outs: seq<Outcome>, verdict: Verdict): seq<bool> {
    seq(|outs|, i requires 0 <= i < |outs| => BlobHit(outs[i], verdict))
  }

  function FailureMarks(outs: seq<Outcome>): seq<bool> {
    seq(|outs|, i requires 0 <= i < |outs| => AnyFailed(outs[i].checks))
  }

  /** The three counts are numbers of marks, so by CountTrueIsCardinality the
      numbers of deliveries they speak about. */
  lemma {:induction false} HitsAreMarks(outs: seq<Outcome>, name: CheckName, verdict: Verdict)
    ensures Hits(outs, name, verdict) == CountTrue(HitMarks(outs, name, verdict))
  {
    if outs != [] {
      HitsAreMarks(outs[..|outs| - 1], name, verdict);
      assert HitMarks(outs, name, verdict)[..|outs| - 1] == HitMarks(outs[..|outs| - 1], name, verdict);
    }
  }

  lemma {:induction false} BlobHitsAreMarks(outs: seq<Outcome>, verdict: Verdict)
    ensures BlobHits(outs, verdict) == CountTrue(BlobMarks(outs, verdict))
  {
    if outs != [] {
      BlobHitsAreMarks(outs[..|outs| - 1], verdict);
      assert BlobMarks(outs, verdict)[..|outs| - 1] == BlobMarks(outs[..|outs| - 1], verdict);
    }
  }

  lemma {:induction false} FailuresAreMarks(outs: seq<Outcome>)
    ensures Failures(outs) == CountTrue(FailureMarks(outs))
  {
    if outs != [] {
      FailuresAreMarks(outs[..|outs| - 1]);
      assert FailureMarks(outs)[..|outs| - 1] == FailureMarks(outs[..|outs| - 1]);
    }
  }

  /** Each counter is the number of deliveries with the verdict it is named for. */
  ghost predicate CountsOutcomes(s: Stats, outs: seq<Outcome>) {
    CountsTotals(s, outs) && CountsHeaders(s, outs) && CountsBodies(s, outs)
  }

  ghost predicate CountsTotals(s: Stats, outs: seq<Outcome>) {
    s.records == |outs| && s.failed == Failures(outs) && s.verified + Failures(outs) == |outs|
  }

  ghost predicate CountsHeaders(s: Stats, outs: seq<Outcome>) {
    && s.signatureOk == Hits(outs, SIGNATURE, PASS) && s.signatureFailed == Hits(outs, SIGNATURE, FAIL)
    && s.signatureUnchecked == Hits(outs, SIGNATURE, SKIP)
    && s.bindingOk == BlobHits(outs, PASS) && s.bindingFailed == BlobHits(outs, FAIL)
  }

  ghost predicate CountsBodies(s: Stats, outs: seq<Outcome>) {
    && s.chainOk == Hits(outs, CHAIN_LINK, PASS) && s.chainBroken == Hits(outs, CHAIN_LINK, FAIL)
    && s.lweOk == Hits(outs, LWE_PARAMS, PASS) && s.lweFailed == Hits(outs, LWE_PARAMS, FAIL)
    && s.piiOk == Hits(outs, PII_ASSERTION, PASS) && s.piiFailed == Hits(outs, PII_ASSERTION, FAIL)
  }

  lemma {:induction false} CountersCountVerdicts(c: Crypto, evs: seq<Event>)
    ensures CountsOutcomes(Run(c, FRESH, evs).stats, Outcomes(c, FRESH, evs))
  {
    if evs != [] {
      var front, ev := evs[..|evs| - 1], evs[|evs| - 1];
      CountersCountVerdicts(c, front);
      OneEvent(c, Run(c, FRESH, front), ev, Outcomes(c, FRESH, front));
    }
  }

  lemma OneEvent(c: Crypto, st: VState, ev: Event, outs: seq<Outcome>)
    requires CountsOutcomes(st.stats, outs)
    ensures CountsOutcomes(Step(c, st, ev).stats, outs + OutcomeOf(c, st, ev))
  {
    if ev.Deliver? { OneMore(c, st, ev.e, outs); } else { assert outs + [] == outs; }
  }

  /** What one delivery came to. */
  datatype Delta = Delta(
    sig: Verdict, published: bool, binding: Verdict, chain: bool, lwe: bool, pii: bool, failed: bool)

  function DeltaOf(c: Crypto, st: VState, e: Envelope): Delta {
    Delta(SignatureVerdict(c, st.pubkey, e), Truthy(e.commitment), BindingVerdict(c, e),
          ChainLinkOk(c, st.expectedPrev, e), LweParamsOk(c, e), PiiOk(c, e), AnyFailed(Checks(c, st, e)))
  }

  // o reports it, one verdict per check
  ghost predicate Reports(o: Outcome, d: Delta, verdict: Verdict) {
    && (Hit(o, SIGNATURE, verdict) <==> d.sig == verdict)
    && (Hit(o, BINDING_HASH, verdict) <==> d.binding == verdict)
    && (Hit(o, CHAIN_LINK, verdict) <==> Judge(d.chain) == verdict)
    && (Hit(o, LWE_PARAMS, verdict) <==> Judge(d.lwe) == verdict)
    && (Hit(o, PII_ASSERTION, verdict) <==> Judge(d.pii) == verdict)
  }

  // the counters before and after it
  ghost predicate Moves(s: Stats, d: Delta, after: Stats) {
    && after.records == s.records + 1
    && after.failed == s.failed + One(d.failed) && after.verified == s.verified + One(!d.failed)
    && after.signatureOk == s.signatureOk + One(d.sig == PASS)
    && after.signatureFailed == s.signatureFailed + One(d.sig == FAIL)
    && after.signatureUnchecked == s.signatureUnchecked + One(d.sig == SKIP)
    && after.bindingOk == s.bindingOk + One(d.published && d.binding == PASS)
    && after.bindingFailed == s.bindingFailed + One(d.published && d.binding == FAIL)
    && after.chainOk == s.chainOk + One(d.chain) && after.chainBroken == s.chainBroken + One(!d.chain)
    && after.lweOk == s.lweOk + One(d.lwe) && after.lweFailed == s.lweFailed + One(!d.lwe)
    && after.piiOk == s.piiOk + One(d.pii) && after.piiFailed == s.piiFailed + One(!d.pii)
  }

  lemma CountersMove(c: Crypto, st: VState, e: Envelope)
    ensures Moves(st.stats, DeltaOf(c, st, e), Verify(c, st, e).stats)
  {
  }

  lemma FiveChecks(sig: Verdict, binding: Verdict, chain: Verdict, lwe: Verdict, pii: Verdict, v: Verdict)
    ensures var checks := [Check(SIGNATURE, sig), Check(BINDING_HASH, binding), Check(CHAIN_LINK, chain),
                           Check(LWE_PARAMS, lwe), Check(PII_ASSERTION, pii)];
            && (Check(SIGNATURE, v) in checks <==> sig == v) && (Check(BINDING_HASH, v) in checks <==> binding == v)
            && (Check(CHAIN_LINK, v) in checks <==> chain == v) && (Check(LWE_PARAMS, v) in checks <==> lwe == v)
            && (Check(PII_ASSERTION, v) in checks <==> pii == v)
  {
  }

  lemma ReportedOnce(c: Crypto, st: VState, e: Envelope, verdict: Verdict)
    ensures Reports(Outcome(e, Checks(c, st, e)), DeltaOf(c, st, e), verdict)
  {
    var d := DeltaOf(c, st, e);
    FiveChecks(d.sig, d.binding, Judge(d.chain), Judge(d.lwe), Judge(d.pii), verdict);
  }

  lemma HitsSnoc(outs: seq<Outcome>, o: Outcome, name: CheckName, verdict: Verdict)
    ensures Hits(outs + [o], name, verdict) == Hits(outs, name, verdict) + One(Hit(o, name, verdict))
    ensures BlobHits(outs + [o], verdict) == BlobHits(outs, verdict) + One(BlobHit(o, verdict))
    ensures Failures(outs + [o]) == Failures(outs) + One(AnyFailed(o.checks))
  {
    assert (outs + [o])[..|outs|] == outs;
  }

  // one delivery moves every counter as it moves the counts
  lemma OneMore(c: Crypto, st: VState, e: Envelope, outs: seq<Outcome>)
    requires CountsOutcomes(st.stats, outs)
    ensures CountsOutcomes(Verify(c, st, e).stats, outs + [Outcome(e, Checks(c, st, e))])
  {
    var o, d := Outcome(e, Checks(c, st, e)), DeltaOf(c, st, e);
    ReportedOnce(c, st, e, PASS);
    ReportedOnce(c, st, e, FAIL);
    ReportedOnce(c, st, e, SKIP);
    CountersMove(c, st, e);
    CountsGrow(st.stats, d, o, Verify(c, st, e).stats, outs);
  }

  lemma CountsGrow(s: Stats, d: Delta, o: Outcome, after: Stats, outs: seq<Outcome>)
    requires CountsOutcomes(s, outs) && Moves(s, d, after)
    requires d.published == Truthy(o.e.commitment) && d.failed == AnyFailed(o.checks)
    requires Reports(o, d, PASS) && Reports(o, d, FAIL) && Reports(o, d, SKIP)
    ensures CountsOutcomes(after, outs + [o])
  {
    TotalsGrow(s, d, o, after, outs);
    HeadersGrow(s, d, o, after, outs);
    BodiesGrow(s, d, o, after, outs);
  }

  lemma TotalsGrow(s: Stats, d: Delta, o: Outcome, after: Stats, outs: seq<Outcome>)
    requires CountsTotals(s, outs) && Moves(s, d, after) && d.failed == AnyFailed(o.checks)
    ensures CountsTotals(after, outs + [o])
  {
    HitsSnoc(outs, o, SIGNATURE, PASS);
  }

  lemma HeadersGrow(s: Stats, d: Delta, o: Outcome, after: Stats, outs: seq<Outcome>)
    requires CountsHeaders(s, outs) && Moves(s, d, after) && d.published == Truthy(o.e.commitment)
    requires Reports(o, d, PASS) && Reports(o, d, FAIL) && Reports(o, d, SKIP)
    ensures CountsHeaders(after, outs + [o])
  {
    HitsSnoc(outs, o, SIGNATURE, PASS);
    HitsSnoc(outs, o, SIGNATURE, FAIL);
    HitsSnoc(outs, o, SIGNATURE, SKIP);
  }

  lemma BodiesGrow(s: Stats, d: Delta, o: Outcome, after: Stats, outs: seq<Outcome>)
    requires CountsBodies(s, outs) && Moves(s, d, after) && Reports(o, d, PASS) && Reports(o, d, FAIL)
    ensures CountsBodies(after, outs + [o])
  {
    HitsSnoc(outs, o, CHAIN_LINK, PASS);
    HitsSnoc(outs, o, CHAIN_LINK, FAIL);
    HitsSnoc(outs, o, LWE_PARAMS, PASS);
    HitsSnoc(outs, o, LWE_PARAMS, FAIL);
    HitsSnoc(outs, o, PII_ASSERTION, PASS);
    HitsSnoc(outs, o, PII_ASSERTION, FAIL);
  }
}
