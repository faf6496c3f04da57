/** The verifier process: two topics in, the newest records and reports kept. */
module VerifierNode {
  import opened Wrappers
  import opened Records
  import opened ChainWalk
  import opened Verifier
  import opened Buffers

  datatype Topic = COMMITTED | ANOMALIES

  /** Everything received and accepted for processing, the verifier, the report
      table, and the two error counters. */
  datatype NodeState = NodeState(
    v: VState, committed: seq<Envelope>, anomalies: seq<Envelope>, reports: seq<Entry>, failures: nat, errors: nat)

  const FRESH_NODE := NodeState(FRESH, [], [], [], 0, 0)

  function ReportOf(c: Crypto, v: VState, e: Envelope): Report {
    Report(e.Txn(), !AnyFailed(Checks(c, v, e)), Checks(c, v, e))
  }

  /** One message: a record that admits to carrying personal data is dropped
      before it reaches a buffer or the verifier. */
  function NodeStep(c: Crypto, st: NodeState, topic: Topic, e: Envelope): NodeState {
    if e.piiBytes.GetOr(0) != 0 then st.(errors := st.errors + 1)
    else match topic
      case COMMITTED =>
        var report := ReportOf(c, st.v, e);
        st.(v := Verify(c, st.v, e), committed := st.committed + [e],
            reports := Retain(st.reports, Entry(e.Txn(), report), REPORT_CAP, REPORT_PRUNE),
            failures := st.failures + (if report.verified then 0 else 1))
      case ANOMALIES => st.(anomalies := st.anomalies + [e])
  }

  class Node {
    const verifier: ExternalVerifier
    const committed: RingBuffer<Envelope>
    const anomalies: RingBuffer<Envelope>
    var reports: seq<Entry>
    var failures: nat
    var errors: nat

    ghost predicate Valid()
      reads this, committed, anomalies
    {
      committed != anomalies && committed.Valid() && anomalies.Valid()
    }

    ghost function State(): NodeState
      reads this, verifier, committed, anomalies
    {
      NodeState(verifier.State(), committed.pushed, anomalies.pushed, reports, failures, errors)
    }

    constructor (crypto: Crypto, bufferSize: nat)
      ensures Valid() && State() == FRESH_NODE && verifier.crypto == crypto
      ensures committed.maxlen == anomalies.maxlen == bufferSize
      ensures fresh(verifier) && fresh(committed) && fresh(anomalies)
    {
      verifier := new ExternalVerifier(crypto, None);
      committed := new RingBuffer(bufferSize);
      anomalies := new RingBuffer(bufferSize);
      reports, failures, errors := [], 0, 0;
    }

    // verify, then retain the report
    method RecordVerification(e: Envelope) returns (report: Report)
      requires Valid()
      modifies this`reports, verifier
      ensures Valid() && report == ReportOf(verifier.crypto, old(verifier.State()), e)
      ensures verifier.State() == Verify(verifier.crypto, old(verifier.State()), e)
      ensures reports == Retain(old(reports), Entry(e.Txn(), report), REPORT_CAP, REPORT_PRUNE)
    {
      report := verifier.VerifyEnvelope(e);
      if |reports| > REPORT_CAP {
        reports := reports[REPORT_PRUNE..];
      }
      var at := Find(reports, e.Txn());
      if at.Some? {
        reports := reports[at.value := Entry(e.Txn(), report)];
      } else {
        reports := reports + [Entry(e.Txn(), report)];
      }
    }

    method Process(topic: Topic, e: Envelope)
      requires Valid()
      modifies this, verifier, committed, anomalies
      ensures Valid() && State() == NodeStep(verifier.crypto, old(State()), topic, e)
    {
      if e.piiBytes.GetOr(0) != 0 {
        errors := errors + 1;
        return;
      }
      match topic
      case COMMITTED =>
        committed.Push(e);
        var report := RecordVerification(e);
        if !report.verified {
          failures := failures + 1;
        }
      case ANOMALIES =>
        anomalies.Push(e);
    }

    /** Walk the chain over the newest n received records. */
    method ChainVerify(n: int) returns (r: ChainReport)
      requires Valid()
      ensures var window := Snapshot(LastN(committed.pushed, committed.maxlen), n);
              && r.checked == |window| && (r.intact <==> IntactChain(verifier.crypto.H, BySeq(window)))
              && r.breaks <= WalkBreaks(verifier.crypto.H, BySeq(window), "CHAIN_HASH_MISMATCH")
              && (window != [] ==>
                    && r.first == BySeq(window)[0].seqNo && r.last == BySeq(window)[|window| - 1].seqNo
                    && r.head == Some(BySeq(window)[|window| - 1].Chain()))
    {
      var window := committed.Read(n);
      r := WalkChain(verifier.crypto.H, window, DASHBOARD_RECOMPUTE);
      WalkCleanIffIntact(verifier.crypto.H, BySeq(window), DASHBOARD_RECOMPUTE);
    }
  }

  // ---- whole runs ----

  datatype Arrival = Arrival(topic: Topic, e: Envelope)

  function NodeRun(c: Crypto, st: NodeState, arrivals: seq<Arrival>): NodeState {
    if arrivals == [] then st else
      var last := arrivals[|arrivals| - 1];
      NodeStep(c, NodeRun(c, st, arrivals[..|arrivals| - 1]), last.topic, last.e)
  }

  ghost predicate NoPersonalData(es: seq<Envelope>) {
    forall i :: 0 <= i < |es| ==> es[i].piiBytes.GetOr(0) == 0
  }

  /** Every message is received once or dropped as an error, no buffer holds a
      record that admits personal data, and the process and its verifier count
      the same records and the same failures. */
  lemma {:induction false} NodeConserves(c: Crypto, arrivals: seq<Arrival>)
    ensures var s := NodeRun(c, FRESH_NODE, arrivals);
            && |s.committed| + |s.anomalies| + s.errors == |arrivals|
            && NoPersonalData(s.committed) && NoPersonalData(s.anomalies)
            && |s.committed| == s.v.stats.records && s.failures == s.v.stats.failed
  {
    if arrivals != [] {
      NodeConserves(c, arrivals[..|arrivals| - 1]);
      var last := arrivals[|arrivals| - 1];
      OutcomeCounted(c, NodeRun(c, FRESH_NODE, arrivals[..|arrivals| - 1]).v, last.e);
    }
  }

  // the report of the newest committed record that was processed, if any
  function NewestReport(c: Crypto, arrivals: seq<Arrival>): Option<Entry> {
    if arrivals == [] then None else
      var front, last := arrivals[..|arrivals| - 1], arrivals[|arrivals| - 1];
      if last.topic.COMMITTED? && last.e.piiBytes.GetOr(0) == 0
      then Some(Entry(last.e.Txn(), ReportOf(c, NodeRun(c, FRESH_NODE, front).v, last.e)))
      else NewestReport(c, front)
  }

  /** After any run, the report of the newest committed record is the one found
      under its id, and it is what the verifier said of that record then. */
  lemma {:induction false} NewestReportIsServed(c: Crypto, arrivals: seq<Arrival>)
    requires NewestReport(c, arrivals).Some?
    ensures var table, newest := NodeRun(c, FRESH_NODE, arrivals).reports, NewestReport(c, arrivals).value;
            && Find(table, newest.txn).Some? && table[Find(table, newest.txn).value] == newest
  {
    var front, last := arrivals[..|arrivals| - 1], arrivals[|arrivals| - 1];
    var before := NodeRun(c, FRESH_NODE, front);
    if last.topic.COMMITTED? && last.e.piiBytes.GetOr(0) == 0 {
      var kept := if |before.reports| > REPORT_CAP then before.reports[REPORT_PRUNE..] else before.reports;
      StoredIsFound(kept, NewestReport(c, arrivals).value);
    } else {
      NewestReportIsServed(c, front);
    }
  }

  lemma OutcomeCounted(c: Crypto, v: VState, e: Envelope)
    ensures var after := Verify(c, v, e).stats;
            && after.records == v.stats.records + 1
            && after.failed == v.stats.failed + (if ReportOf(c, v, e).verified then 0 else 1)
  {
  }
}
