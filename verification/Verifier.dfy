/** The external verifier: per-record checks, continuous chain tracking, and
    what they guarantee over every input stream. */
module Verifier {
  import opened Wrappers
  import opened Records
  import opened ChainWalk

  /** What the verifier is configured with: the chain hash, the signature check
      (key, signature, payload), the hash of a decoded commitment (None when it
      does not decode), the agreed lattice profile and the forbidden fields. */
  datatype Crypto = Crypto(
    H: Hash, verifySig: (string, string, string) -> bool, blobHash: string -> Option<string>,
    profile: map<string, int>, forbidden: set<string>)

  datatype CheckName = SIGNATURE | BINDING_HASH | CHAIN_LINK | LWE_PARAMS | PII_ASSERTION

  datatype Verdict = PASS | FAIL | SKIP

  datatype Check = Check(name: CheckName, verdict: Verdict)

  datatype Report = Report(txn: string, verified: bool, checks: seq<Check>)

  datatype Stats = Stats(
    records: nat, verified: nat, failed: nat,
    signatureOk: nat, signatureFailed: nat, signatureUnchecked: nat,
    bindingOk: nat, bindingFailed: nat, chainOk: nat, chainBroken: nat,
    lweOk: nat, lweFailed: nat, piiOk: nat, piiFailed: nat)

  const NO_STATS := Stats(0, 0, 0, 0, 0, 0, 0, 0, 0, 0, 0, 0, 0, 0)

  const EXPECTED_LWE: map<string, int> := map["n" := 256, "k" := 2, "q" := 3329, "eta" := 2]

  const FORBIDDEN_FIELDS: set<string> := {
    "amount", "amount_cents", "account_id", "counterparty_id", "currency", "metadata", "payload_hash"
  }

  datatype VState = VState(pubkey: Option<string>, expectedPrev: Option<string>, lastSeq: Option<int>, stats: Stats)

  const FRESH := VState(None, None, None, NO_STATS)

  // ---- the five checks ----

  function Truthy(s: Option<string>): bool {
    s.Some? && s.value != ""
  }

  function Judge(ok: bool): Verdict {
    if ok then PASS else FAIL
  }

  function SignatureVerdict(c: Crypto, pubkey: Option<string>, e: Envelope): Verdict {
    if !Truthy(pubkey) then SKIP
    else if !Truthy(e.signature) then FAIL
    else Judge(c.verifySig(pubkey.value, e.signature.value, SigningPayload(e.Txn(), e.Binding(), e.Ts(), e.Chain())))
  }

  predicate HexDigest(s: string) {
    |s| == 64 && forall i :: 0 <= i < |s| ==> '0' <= s[i] <= '9' || 'a' <= s[i] <= 'f'
  }

  function BindingVerdict(c: Crypto, e: Envelope): Verdict {
    if Truthy(e.commitment) then Judge(c.blobHash(e.commitment.value) == Some(e.Binding()))
    else Judge(HexDigest(e.Binding()))
  }

  predicate ChainLinkOk(c: Crypto, expectedPrev: Option<string>, e: Envelope) {
    c.H(e.Preimage()) == e.Chain() && (expectedPrev.Some? ==> e.Prev() == expectedPrev.value)
  }

  predicate LweParamsOk(c: Crypto, e: Envelope) {
    var params := e.lweParams.GetOr(map[]);
    forall key :: key in c.profile ==> key in params && params[key] == c.profile[key]
  }

  predicate PiiOk(c: Crypto, e: Envelope) {
    e.piiBytes.GetOr(0) == 0 && e.extra !! c.forbidden
  }

  // ---- one record ----

  function Checks(c: Crypto, st: VState, e: Envelope): seq<Check> {
    [Check(SIGNATURE, SignatureVerdict(c, st.pubkey, e)),
     Check(BINDING_HASH, BindingVerdict(c, e)),
     Check(CHAIN_LINK, Judge(ChainLinkOk(c, st.expectedPrev, e))),
     Check(LWE_PARAMS, Judge(LweParamsOk(c, e))),
     Check(PII_ASSERTION, Judge(PiiOk(c, e)))]
  }

  predicate AnyFailed(checks: seq<Check>) {
    exists i :: 0 <= i < |checks| && checks[i].verdict == FAIL
  }

  function One(b: bool): nat {
    if b then 1 else 0
  }

  function CountSignature(s: Stats, v: Verdict): Stats {
    s.(signatureOk := s.signatureOk + One(v == PASS), signatureFailed := s.signatureFailed + One(v == FAIL),
       signatureUnchecked := s.signatureUnchecked + One(v == SKIP))
  }

  // a record without a commitment is judged by format only and not counted
  function CountBinding(s: Stats, published: bool, v: Verdict): Stats {
    s.(bindingOk := s.bindingOk + One(published && v == PASS),
       bindingFailed := s.bindingFailed + One(published && v == FAIL))
  }

  function CountChain(s: Stats, ok: bool): Stats {
    s.(chainOk := s.chainOk + One(ok), chainBroken := s.chainBroken + One(!ok))
  }

  function CountProfile(s: Stats, lwe: bool, pii: bool): Stats {
    s.(lweOk := s.lweOk + One(lwe), lweFailed := s.lweFailed + One(!lwe),
       piiOk := s.piiOk + One(pii), piiFailed := s.piiFailed + One(!pii))
  }

  function CountRecord(s: Stats, failed: bool): Stats {
    s.(records := s.records + 1, failed := s.failed + One(failed), verified := s.verified + One(!failed))
  }

  function CountChecks(s: Stats, c: Crypto, st: VState, e: Envelope): Stats {
    var s1 := CountSignature(s, SignatureVerdict(c, st.pubkey, e));
    var s2 := CountBinding(s1, Truthy(e.commitment), BindingVerdict(c, e));
    var s3 := CountChain(s2, ChainLinkOk(c, st.expectedPrev, e));
    var s4 := CountProfile(s3, LweParamsOk(c, e), PiiOk(c, e));
    CountRecord(s4, AnyFailed(Checks(c, st, e)))
  }

  /** The state after one record: the head advances only on an accepted link. */
  function Verify(c: Crypto, st: VState, e: Envelope): VState {
    var stats := CountChecks(st.stats, c, st, e);
    if ChainLinkOk(c, st.expectedPrev, e) then VState(st.pubkey, Some(e.Chain()), e.seqNo, stats)
    else st.(stats := stats)
  }

  class ExternalVerifier {
    const crypto: Crypto
    var pubkey: Option<string>
    var expectedPrev: Option<string>
    var lastSeq: Option<int>
    var stats: Stats

    function State(): VState
      reads this
    {
      VState(pubkey, expectedPrev, lastSeq, stats)
    }

    constructor (crypto: Crypto, key: Option<string>)
      ensures this.crypto == crypto && State() == FRESH.(pubkey := key)
    {
      this.crypto := crypto;
      pubkey := key;
      expectedPrev := None;
      lastSeq := None;
      stats := NO_STATS;
    }

    method SetPublicKey(key: Option<string>)
      modifies this
      ensures State() == old(State()).(pubkey := key)
    {
      pubkey := key;
    }

    method ResetChain()
      modifies this
      ensures State() == old(State()).(expectedPrev := None, lastSeq := None)
    {
      expectedPrev := None;
      lastSeq := None;
    }

    method CheckSignature(e: Envelope) returns (check: Check)
      modifies this`stats
      ensures check == Check(SIGNATURE, SignatureVerdict(crypto, pubkey, e))
      ensures stats == CountSignature(old(stats), check.verdict)
    {
      if !Truthy(pubkey) {
        stats := stats.(signatureUnchecked := stats.signatureUnchecked + 1);
        return Check(SIGNATURE, SKIP);
      }
      if !Truthy(e.signature) {
        stats := stats.(signatureFailed := stats.signatureFailed + 1);
        return Check(SIGNATURE, FAIL);
      }
      var payload := SigningPayload(e.Txn(), e.Binding(), e.Ts(), e.Chain());
      if crypto.verifySig(pubkey.value, e.signature.value, payload) {
        stats := stats.(signatureOk := stats.signatureOk + 1);
        check := Check(SIGNATURE, PASS);
      } else {
        stats := stats.(signatureFailed := stats.signatureFailed + 1);
        check := Check(SIGNATURE, FAIL);
      }
    }

    method CheckBinding(e: Envelope) returns (check: Check)
      modifies this`stats
      ensures check == Check(BINDING_HASH, BindingVerdict(crypto, e))
      ensures stats == CountBinding(old(stats), Truthy(e.commitment), check.verdict)
    {
      if Truthy(e.commitment) {
        var recomputed := crypto.blobHash(e.commitment.value);
        if recomputed.Some? && recomputed.value == e.Binding() {
          stats := stats.(bindingOk := stats.bindingOk + 1);
          check := Check(BINDING_HASH, PASS);
        } else {
          stats := stats.(bindingFailed := stats.bindingFailed + 1);
          check := Check(BINDING_HASH, FAIL);
        }
      } else {
        check := Check(BINDING_HASH, Judge(HexDigest(e.Binding())));
      }
    }

    method CheckChain(e: Envelope) returns (check: Check)
      modifies this`stats, this`expectedPrev, this`lastSeq
      ensures check == Check(CHAIN_LINK, Judge(ChainLinkOk(crypto, old(expectedPrev), e)))
      ensures expectedPrev == if check.verdict == PASS then Some(e.Chain()) else old(expectedPrev)
      ensures lastSeq == if check.verdict == PASS then e.seqNo else old(lastSeq)
      ensures stats == CountChain(old(stats), check.verdict == PASS)
    {
      var prev := e.Prev();
      var chainOk := ComputeChainHash(crypto.H, prev, e.Binding(), e.Txn(), e.Ts()) == e.Chain();
      if chainOk && expectedPrev.Some? {
        if prev != expectedPrev.value {
          chainOk := false;
        }
      }
      if chainOk {
        expectedPrev := Some(e.Chain());
        lastSeq := e.seqNo;
        stats := stats.(chainOk := stats.chainOk + 1);
      } else {
        stats := stats.(chainBroken := stats.chainBroken + 1);
      }
      check := Check(CHAIN_LINK, Judge(chainOk));
    }

    method CheckProfile(e: Envelope) returns (lwe: Check, pii: Check)
      modifies this`stats
      ensures lwe == Check(LWE_PARAMS, Judge(LweParamsOk(crypto, e)))
      ensures pii == Check(PII_ASSERTION, Judge(PiiOk(crypto, e)))
      ensures stats == CountProfile(old(stats), LweParamsOk(crypto, e), PiiOk(crypto, e))
    {
      var lweOk, piiOk := LweParamsOk(crypto, e), PiiOk(crypto, e);
      if lweOk {
        stats := stats.(lweOk := stats.lweOk + 1);
      } else {
        stats := stats.(lweFailed := stats.lweFailed + 1);
      }
      if piiOk {
        stats := stats.(piiOk := stats.piiOk + 1);
      } else {
        stats := stats.(piiFailed := stats.piiFailed + 1);
      }
      lwe, pii := Check(LWE_PARAMS, Judge(lweOk)), Check(PII_ASSERTION, Judge(piiOk));
    }

    method CountOutcome(failed: bool)
      modifies this`stats
      ensures stats == CountRecord(old(stats), failed)
    {
      stats := stats.(records := stats.records + 1);
      if failed {
        stats := stats.(failed := stats.failed + 1);
      } else {
        stats := stats.(verified := stats.verified + 1);
      }
    }

    method VerifyEnvelope(e: Envelope) returns (report: Report)
      modifies this
      ensures State() == Verify(crypto, old(State()), e)
      ensures report.checks == Checks(crypto, old(State()), e)
      ensures report.txn == e.Txn() && (report.verified <==> !AnyFailed(report.checks))
    {
      var sig := CheckSignature(e);
      var binding := CheckBinding(e);
      var chain := CheckChain(e);
      var lwe, pii := CheckProfile(e);
      var checks := [sig, binding, chain, lwe, pii];
      var failed := AnyFailed(checks);
      CountOutcome(failed);
      report := Report(e.Txn(), !failed, checks);
    }
  }

  // ---- whole runs ----

  datatype Event = Deliver(e: Envelope) | SetKey(key: Option<string>) | Reset

  function Step(c: Crypto, st: VState, ev: Event): VState {
    match ev
    case Deliver(e) => Verify(c, st, e)
    case SetKey(key) => st.(pubkey := key)
    case Reset => st.(expectedPrev := None, lastSeq := None)
  }

  function Run(c: Crypto, st: VState, evs: seq<Event>): VState {
    if evs == [] then st else Step(c, Run(c, st, evs[..|evs| - 1]), evs[|evs| - 1])
  }

  ghost predicate Balanced(s: Stats) {
    && s.verified + s.failed == s.records
    && s.signatureOk + s.signatureFailed + s.signatureUnchecked == s.records
    && s.chainOk + s.chainBroken == s.records
    && s.lweOk + s.lweFailed == s.records
    && s.piiOk + s.piiFailed == s.records
    && s.bindingOk + s.bindingFailed <= s.records
  }

  lemma OneRecordBalanced(s: Stats, c: Crypto, st: VState, e: Envelope)
    requires Balanced(s)
    ensures Balanced(CountChecks(s, c, st, e))
  {
    var binding := BindingVerdict(c, e);
    assert One(binding == PASS) + One(binding == FAIL) <= 1;
  }

  /** Every family of counters adds up to the number of records, in every
      reachable state; only the binding check skips records without a blob. */
  lemma {:induction false} CountersConserved(c: Crypto, evs: seq<Event>)
    ensures Balanced(Run(c, FRESH, evs).stats)
  {
    if evs != [] {
      CountersConserved(c, evs[..|evs| - 1]);
      var before, ev := Run(c, FRESH, evs[..|evs| - 1]), evs[|evs| - 1];
      if ev.Deliver? { OneRecordBalanced(before.stats, c, before, ev.e); }
    }
  }

  // the records accepted since the last reset, in arrival order
  function Accepted(c: Crypto, st: VState, evs: seq<Event>): seq<Envelope> {
    if evs == [] then [] else
      var front, ev := evs[..|evs| - 1], evs[|evs| - 1];
      match ev
      case Deliver(e) =>
        if ChainLinkOk(c, Run(c, st, front).expectedPrev, e) then Accepted(c, st, front) + [e]
        else Accepted(c, st, front)
      case SetKey(_) => Accepted(c, st, front)
      case Reset => []
  }

  ghost predicate OnlineLinkAt(es: seq<Envelope>, i: nat)
    requires 0 < i < |es|
  {
    es[i].Prev() == es[i - 1].Chain()
  }

  // linked and recomputing, with missing fields read as empty
  ghost predicate OnlineLinked(H: Hash, es: seq<Envelope>) {
    && (forall i :: 0 <= i < |es| ==> H(es[i].Preimage()) == es[i].Chain())
    && (forall i :: 0 < i < |es| ==> OnlineLinkAt(es, i))
  }

  function HeadOf(es: seq<Envelope>): Option<string> {
    if es == [] then None else Some(es[|es| - 1].Chain())
  }

  function NumberOf(es: seq<Envelope>): Option<int> {
    if es == [] then None else es[|es| - 1].seqNo
  }

  /** On every stream, honest or not, what was accepted since the last reset is
      one linked, recomputing chain, and the tracked head and number are its last. */
  lemma {:induction false} AcceptedIsChain(c: Crypto, evs: seq<Event>)
    ensures OnlineLinked(c.H, Accepted(c, FRESH, evs))
    ensures Run(c, FRESH, evs).expectedPrev == HeadOf(Accepted(c, FRESH, evs))
    ensures Run(c, FRESH, evs).lastSeq == NumberOf(Accepted(c, FRESH, evs))
  {
    if evs != [] {
      var front, ev := evs[..|evs| - 1], evs[|evs| - 1];
      var st := Run(c, FRESH, front);
      AcceptedIsChain(c, front);
      match ev
      case Deliver(e) =>
        OneDelivery(c, st, e);
        if ChainLinkOk(c, st.expectedPrev, e) { SnocOnlineLinked(c.H, Accepted(c, FRESH, front), e); }
      case SetKey(_) =>
      case Reset =>
    }
  }

  lemma SnocOnlineLinked(H: Hash, es: seq<Envelope>, e: Envelope)
    requires OnlineLinked(H, es) && H(e.Preimage()) == e.Chain() && (es != [] ==> Some(e.Prev()) == HeadOf(es))
    ensures OnlineLinked(H, es + [e]) && HeadOf(es + [e]) == Some(e.Chain())
  {
    var all := es + [e];
    SnocRecomputes(H, es, e, all);
    forall i | 0 < i < |all| ensures OnlineLinkAt(all, i) { SnocLink(H, es, e, all, i); }
  }

  lemma SnocRecomputes(H: Hash, es: seq<Envelope>, e: Envelope, all: seq<Envelope>)
    requires OnlineLinked(H, es) && H(e.Preimage()) == e.Chain() && all == es + [e]
    ensures forall i :: 0 <= i < |all| ==> H(all[i].Preimage()) == all[i].Chain()
  {
    forall i | 0 <= i < |all| ensures all[i] == if i < |es| then es[i] else e { }
  }

  lemma SnocLink(H: Hash, es: seq<Envelope>, e: Envelope, all: seq<Envelope>, i: nat)
    requires OnlineLinked(H, es) && all == es + [e] && 0 < i < |all|
    requires es != [] ==> Some(e.Prev()) == HeadOf(es)
    ensures OnlineLinkAt(all, i)
  {
    assert all[i - 1] == es[i - 1];
    if i < |es| {
      assert OnlineLinkAt(es, i);
      assert all[i] == es[i];
    } else {
      assert all[i] == e;
    }
  }

  // ---- feeding a list of records ----

  // every CHAIN_LINK passes when es arrives at a verifier expecting prev
  predicate AllLinksPass(c: Crypto, prev: Option<string>, es: seq<Envelope>)
    decreases |es|
  {
    es == [] || (ChainLinkOk(c, prev, es[0]) && AllLinksPass(c, Some(es[0].Chain()), es[1..]))
  }

  function Deliveries(es: seq<Envelope>): (evs: seq<Event>)
    ensures |evs| == |es|
  {
    seq(|es|, i requires 0 <= i < |es| => Deliver(es[i]))
  }

  lemma {:induction false} AllLinksPassMeaning(c: Crypto, prev: Option<string>, es: seq<Envelope>)
    ensures AllLinksPass(c, prev, es) <==>
              OnlineLinked(c.H, es) && (es != [] && prev.Some? ==> es[0].Prev() == prev.value)
    decreases |es|
  {
    if es != [] {
      var e, rest := es[0], es[1..];
      AllLinksPassMeaning(c, Some(e.Chain()), rest);
      assert es == [e] + rest;
      ConsOnlineLinked(c.H, e, rest);
    }
  }

  lemma ConsOnlineLinked(H: Hash, e: Envelope, rest: seq<Envelope>)
    ensures OnlineLinked(H, [e] + rest) <==>
              H(e.Preimage()) == e.Chain() && OnlineLinked(H, rest) && (rest != [] ==> rest[0].Prev() == e.Chain())
  {
    var es := [e] + rest;
    assert es[0] == e;
    if OnlineLinked(H, es) {
      if rest != [] { assert OnlineLinkAt(es, 1); }
      forall i | 0 <= i < |rest|
        ensures H(rest[i].Preimage()) == rest[i].Chain()
        ensures i > 0 ==> OnlineLinkAt(rest, i)
      {
        assert rest[i] == es[i + 1];
        if i > 0 { assert OnlineLinkAt(es, i + 1); }
      }
    }
    if H(e.Preimage()) == e.Chain() && OnlineLinked(H, rest) && (rest != [] ==> rest[0].Prev() == e.Chain()) {
      forall i | 0 <= i < |es|
        ensures H(es[i].Preimage()) == es[i].Chain()
        ensures i > 0 ==> OnlineLinkAt(es, i)
      {
        if i > 0 { assert es[i] == rest[i - 1]; }
        if i > 1 { assert OnlineLinkAt(rest, i - 1); }
      }
    }
  }

  lemma OneDelivery(c: Crypto, st: VState, e: Envelope)
    ensures var after := Step(c, st, Deliver(e));
            && after.stats.chainBroken == st.stats.chainBroken + One(!ChainLinkOk(c, st.expectedPrev, e))
            && after.expectedPrev == if ChainLinkOk(c, st.expectedPrev, e) then Some(e.Chain()) else st.expectedPrev
  {
  }

  // after is what es left behind: the counter grew unless every link passed
  ghost predicate BreaksCounted(c: Crypto, st: VState, es: seq<Envelope>, after: VState) {
    && after.stats.chainBroken >= st.stats.chainBroken
    && (after.stats.chainBroken == st.stats.chainBroken <==> AllLinksPass(c, st.expectedPrev, es))
    && (AllLinksPass(c, st.expectedPrev, es) ==> after.expectedPrev == if es == [] then st.expectedPrev else HeadOf(es))
  }

  lemma OneMoreCounted(c: Crypto, st: VState, es: seq<Envelope>, before: VState)
    requires es != [] && BreaksCounted(c, st, es[..|es| - 1], before)
    ensures BreaksCounted(c, st, es, Step(c, before, Deliver(es[|es| - 1])))
  {
    var front, e := es[..|es| - 1], es[|es| - 1];
    assert es == front + [e];
    AllLinksPassSnoc(c, st.expectedPrev, front, e);
    OneDelivery(c, before, e);
  }

  lemma RunLast(c: Crypto, st: VState, es: seq<Envelope>)
    requires es != []
    ensures Run(c, st, Deliveries(es)) == Step(c, Run(c, st, Deliveries(es[..|es| - 1])), Deliver(es[|es| - 1]))
  {
    assert Deliveries(es)[..|es| - 1] == Deliveries(es[..|es| - 1]);
  }

  /** The counters see exactly this: chain_broken stays put exactly when every
      link of the delivery passed, and then the head is its last record. */
  lemma {:induction false} NoBreakCounted(c: Crypto, st: VState, es: seq<Envelope>)
    ensures BreaksCounted(c, st, es, Run(c, st, Deliveries(es)))
  {
    if es != [] {
      NoBreakCounted(c, st, es[..|es| - 1]);
      OneMoreCounted(c, st, es, Run(c, st, Deliveries(es[..|es| - 1])));
      RunLast(c, st, es);
    }
  }

  lemma {:induction false} AllLinksPassSnoc(c: Crypto, prev: Option<string>, es: seq<Envelope>, e: Envelope)
    ensures AllLinksPass(c, prev, es + [e]) <==>
              AllLinksPass(c, prev, es) && ChainLinkOk(c, if es == [] then prev else HeadOf(es), e)
    decreases |es|
  {
    if es == [] {
      assert AllLinksPass(c, Some(e.Chain()), []);
      assert [e][1..] == [];
    } else {
      AllLinksPassSnoc(c, Some(es[0].Chain()), es[1..], e);
      assert (es + [e])[1..] == es[1..] + [e];
      assert es[1..] != [] ==> HeadOf(es[1..]) == HeadOf(es);
    }
  }

  // ---- online against offline ----

  lemma LinkedOnline(H: Hash, es: seq<Envelope>)
    requires HexDigests(H)
    ensures Linked(H, es) && (es != [] ==> es[0].prevHash.Some?)
            <==> OnlineLinked(H, es) && (es != [] ==> es[0].prevHash.Some?)
  {
    if es != [] && es[0].prevHash.Some? {
      forall i | 0 <= i < |es| && OnlineLinked(H, es)
        ensures Recomputes(H, es[i])
        ensures i > 0 ==> LinkAt(es, i)
      {
        assert |H(es[i].Preimage())| == HEX_WIDTH;
        if i > 0 {
          assert |H(es[i - 1].Preimage())| == HEX_WIDTH;
          assert OnlineLinkAt(es, i);
        }
      }
      forall i | 0 < i < |es| && Linked(H, es) ensures OnlineLinkAt(es, i) { assert LinkAt(es, i); }
      forall i | 0 <= i < |es| && Linked(H, es)
        ensures H(es[i].Preimage()) == es[i].Chain()
      {
        assert Recomputes(H, es[i]);
      }
    }
  }

  /** A fresh verifier fed the sorted window accepts every link, and its oldest
      record carries its predecessor field, exactly when the offline walk finds
      no hash-type break. */
  lemma OnlineAgreesWithWalk(c: Crypto, es: seq<Envelope>, wording: string)
    requires HexDigests(c.H)
    ensures NoHashBreak(WalkBreaks(c.H, es, wording))
            <==> AllLinksPass(c, None, es) && (es != [] ==> es[0].prevHash.Some?)
  {
    HashCleanIffLinked(c.H, es, wording);
    AllLinksPassMeaning(c, None, es);
    LinkedOnline(c.H, es);
  }

  /** Without that field the two checks disagree: the walk compares the
      missing field with genesis, the verifier reads it as the empty text. */
  lemma MissingPredecessorDisagrees(c: Crypto, e: Envelope, wording: string)
    requires e.prevHash == None && e.chainHash == Some(c.H(e.Preimage()))
    ensures AllLinksPass(c, None, [e]) && !NoHashBreak(WalkBreaks(c.H, [e], wording))
  {
    HashCleanIffLinked(c.H, [e], wording);
    assert AllLinksPass(c, Some(e.Chain()), [e][1..]);
  }
}
