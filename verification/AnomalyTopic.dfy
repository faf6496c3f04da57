/** The second public topic: which records of a run are published there, and
    what the verifier has received of them. */
module AnomalyTopic {
  import opened Wrappers
  import opened Records
  import opened ChainWalk
  import opened Store
  import opened Verifier
  import opened VerifierNode
  import opened Pipeline
  import R = Restart

  /** Read off the actions: whether the score of the addition in progress, and of
      every record of the log, reached its threshold. */
  datatype Scores = Scores(current: bool, high: seq<bool>)

  function ScoresStep(f: Scores, a: Action): Scores {
    match a
    case Ingest(id, accepted, c, score, threshold) => if accepted && c.Ok? then f.(current := score >= threshold) else f
    case SaveHead(ok) => f.(high := f.high + [f.current])
    case _ => f
  }

  function ScoresOf(actions: seq<Action>): Scores {
    if actions == [] then Scores(false, []) else ScoresStep(ScoresOf(actions[..|actions| - 1]), actions[|actions| - 1])
  }

  // the records whose score reached the threshold, in order
  function HighRecords(log: seq<Envelope>, high: seq<bool>): seq<Envelope>
    requires |log| == |high|
  {
    if log == [] then [] else
      var n := |log| - 1;
      HighRecords(log[..n], high[..n]) + if high[n] then [log[n]] else []
  }

  // the anomaly copies among the messages still to be sent
  function Copies(pending: seq<Message>): seq<Envelope> {
    if pending == [] then [] else
      var n := |pending| - 1;
      Copies(pending[..n]) + if pending[n].topic.ANOMALIES? then [pending[n].e] else []
  }

  // the addition in progress carries the status of its score
  ghost predicate FlightInv(sys: R.Sys, current: bool) {
    match sys.phase
    case Idle => true
    case Headed(r) => r.status == if current then QUARANTINED else VERIFIED
    case Written(r) => r.status == if current then QUARANTINED else VERIFIED
  }

  // ---- every copy belongs to a high score ----

  ghost predicate HighRecord(log: seq<Envelope>, high: seq<bool>, e: Envelope) {
    |log| == |high| && exists i :: 0 <= i < |log| && high[i] && e == log[i]
  }

  ghost predicate AllHigh(log: seq<Envelope>, high: seq<bool>, es: seq<Envelope>) {
    forall i :: 0 <= i < |es| ==> HighRecord(log, high, es[i])
  }

  ghost predicate SoundInv(s: Pipe, f: Scores) {
    && |s.log| == |f.high| && FlightInv(s.sys, f.current)
    && AllHigh(s.log, f.high, Copies(s.pending)) && AllHigh(s.log, f.high, s.node.anomalies)
    && forall p :: 0 <= p < |s.anomalies| ==> AllHigh(s.log, f.high, s.anomalies[p])
  }

  lemma StillHigh(log: seq<Envelope>, high: seq<bool>, e: Envelope, b: bool, es: seq<Envelope>)
    requires |log| == |high| && AllHigh(log, high, es)
    ensures AllHigh(log + [e], high + [b], es)
  {
    forall i | 0 <= i < |es|
      ensures HighRecord(log + [e], high + [b], es[i])
    {
      assert HighRecord(log, high, es[i]);
      var j :| 0 <= j < |log| && high[j] && es[i] == log[j];
      assert (log + [e])[j] == es[i] && (high + [b])[j];
    }
  }

  lemma AddHigh(log: seq<Envelope>, high: seq<bool>, es: seq<Envelope>, e: Envelope)
    requires AllHigh(log, high, es) && HighRecord(log, high, e)
    ensures AllHigh(log, high, es + [e])
  {
  }

  // the copies of a list of messages, from its front
  lemma {:induction false} CopiesFront(pending: seq<Message>)
    requires pending != []
    ensures Copies(pending) == (if pending[0].topic.ANOMALIES? then [pending[0].e] else []) + Copies(pending[1..])
  {
    var n := |pending| - 1;
    if n > 0 {
      CopiesFront(pending[..n]);
      assert pending[..n][1..] == pending[1..][..n - 1];
    }
  }

  // the queued messages hold a copy exactly for a high score
  lemma CopiesOfAddition(r: Record, high: bool)
    requires r.status == if high then QUARANTINED else VERIFIED
    ensures Copies(Envelopes(r)) == if high then [Export(r)] else []
  {
    CopiesFront(Envelopes(r));
    if high { CopiesFront(Envelopes(r)[1..]); }
  }

  lemma SoundSave(cfg: Settings, s: Pipe, f: Scores, ok: bool)
    requires SoundInv(s, f) && Save(cfg, s, ok).Some?
    ensures SoundInv(Save(cfg, s, ok).value, ScoresStep(f, SaveHead(ok)))
  {
    var s', f' := Save(cfg, s, ok).value, ScoresStep(f, SaveHead(ok));
    var r := s.sys.phase.record;
    CopiesOfAddition(r, f.current);
    if f.current { assert s'.log[|s.log|] == Export(r) && f'.high[|s.log|]; }
    assert f.current ==> HighRecord(s'.log, f'.high, Export(r));
    StillHigh(s.log, f.high, Export(r), f.current, s.node.anomalies);
    forall p | 0 <= p < |s.anomalies|
      ensures AllHigh(s'.log, f'.high, s'.anomalies[p])
    {
      StillHigh(s.log, f.high, Export(r), f.current, s.anomalies[p]);
    }
  }

  lemma SoundPublish(s: Pipe, f: Scores, p: nat)
    requires SoundInv(s, f) && s.pending != [] && Deposit(s, p).Some?
    ensures SoundInv(Deposit(s, p).value, f)
  {
    CopiesFront(s.pending);
    if s.pending[0].topic.ANOMALIES? {
      assert Copies(s.pending)[0] == s.pending[0].e;
      AddHigh(s.log, f.high, s.anomalies[p], s.pending[0].e);
    }
    RestHigh(s.log, f.high, s.pending);
  }

  lemma RestHigh(log: seq<Envelope>, high: seq<bool>, pending: seq<Message>)
    requires pending != [] && AllHigh(log, high, Copies(pending))
    ensures AllHigh(log, high, Copies(pending[1..]))
  {
    CopiesFront(pending);
    var lead := |Copies(pending)| - |Copies(pending[1..])|;
    forall i | 0 <= i < |Copies(pending[1..])|
      ensures HighRecord(log, high, Copies(pending[1..])[i])
    {
      assert Copies(pending[1..])[i] == Copies(pending)[lead + i];
    }
  }

  lemma SoundPoll(c: Crypto, s: Pipe, f: Scores, p: nat)
    requires SoundInv(s, f) && PollAnomalies(c, s, p).Some?
    ensures SoundInv(PollAnomalies(c, s, p).value, f)
  {
    var q := s.anomalies[p];
    assert HighRecord(s.log, f.high, q[0]);
    AddHigh(s.log, f.high, s.node.anomalies, q[0]);
    assert AllHigh(s.log, f.high, q[1..]);
  }

  lemma SoundStep(cfg: Settings, s: Pipe, f: Scores, a: Action)
    requires SoundInv(s, f) && TakeAction(cfg, s, a).Some?
    ensures SoundInv(TakeAction(cfg, s, a).value, ScoresStep(f, a))
  {
    match a
    case SaveHead(ok) => SoundSave(cfg, s, f, ok);
    case Publish(partition, ok) =>
      if ok {
        SoundPublish(s, f, Target(cfg, s.pending[0].topic, partition));
      } else {
        RestHigh(s.log, f.high, s.pending);
      }
    case Poll(topic, p) => if topic.ANOMALIES? { SoundPoll(cfg.crypto, s, f, p); }
    case _ =>
  }

  /** In every reachable state - keyed or not, with any failures and restarts -
      whatever was received or waits on the anomaly topic is the export of a
      record whose score reached its threshold. */
  lemma {:induction false} OnlyHighScoresPublished(cfg: Settings, persisted: Option<(nat, string)>, partitions: nat,
                                                   actions: seq<Action>)
    requires Exec(cfg, Start(persisted, partitions), actions).Some?
    ensures SoundInv(Exec(cfg, Start(persisted, partitions), actions).value, ScoresOf(actions))
  {
    if actions != [] {
      var front, last := actions[..|actions| - 1], actions[|actions| - 1];
      OnlyHighScoresPublished(cfg, persisted, partitions, front);
      SoundStep(cfg, Exec(cfg, Start(persisted, partitions), front).value, ScoresOf(front), last);
    }
  }

  // ---- and every high score gets one ----

  // an anomaly copy is next to be sent
  predicate CopyNext(s: Pipe) {
    s.pending != [] && s.pending[0].topic.ANOMALIES?
  }

  /** No anomaly copy fails to be published, and restarts find nothing to be sent;
      committed messages may fail. */
  predicate AllSent(cfg: Settings, start: Pipe, actions: seq<Action>) {
    actions == [] ||
    (var front, last := actions[..|actions| - 1], actions[|actions| - 1];
     var before := Exec(cfg, start, front);
     && AllSent(cfg, start, front)
     && (last.Publish? && before.Some? && CopyNext(before.value) ==> last.ok)
     && (last.Restart? && before.Some? ==> before.value.pending == []))
  }

  ghost predicate Clean(es: seq<Envelope>) {
    forall i :: 0 <= i < |es| ==> es[i].piiBytes == Some(0)
  }

  // received, queued and still to be sent: the high records in order
  ghost predicate ExactInv(home: nat, s: Pipe, f: Scores) {
    && |s.log| == |f.high| && FlightInv(s.sys, f.current) && (s.pending != [] ==> s.sys.phase.Idle?)
    && OnlyHome(home, s.anomalies) && Clean(HighRecords(s.log, f.high))
    && s.node.anomalies + s.anomalies[home] + Copies(s.pending) == HighRecords(s.log, f.high)
  }

  lemma ExactSave(cfg: Settings, home: nat, s: Pipe, f: Scores, ok: bool)
    requires ExactInv(home, s, f) && Save(cfg, s, ok).Some?
    ensures ExactInv(home, Save(cfg, s, ok).value, ScoresStep(f, SaveHead(ok)))
  {
    var s', f' := Save(cfg, s, ok).value, ScoresStep(f, SaveHead(ok));
    var r := s.sys.phase.record;
    CopiesOfAddition(r, f.current);
    assert s'.log[..|s.log|] == s.log && f'.high[..|s.log|] == f.high;
    assert Copies(s.pending) == [];
  }

  lemma ExactPublish(home: nat, s: Pipe, f: Scores, p: nat)
    requires ExactInv(home, s, f) && s.pending != [] && Deposit(s, p).Some?
    requires s.pending[0].topic.ANOMALIES? ==> p == home
    ensures ExactInv(home, Deposit(s, p).value, f)
  {
    CopiesFront(s.pending);
    if s.pending[0].topic.ANOMALIES? {
      var q, e, rest := s.anomalies[home], s.pending[0].e, Copies(s.pending[1..]);
      assert s.node.anomalies + (q + [e]) + rest == s.node.anomalies + q + ([e] + rest);
    } else {
      assert [] + Copies(s.pending[1..]) == Copies(s.pending[1..]);
    }
  }

  // a committed message that failed leaves its anomaly copy to be sent
  lemma ExactDrop(home: nat, s: Pipe, f: Scores)
    requires ExactInv(home, s, f) && s.pending != [] && !CopyNext(s)
    ensures ExactInv(home, DropNext(s), f)
  {
    CopiesFront(s.pending);
    assert [] + Copies(s.pending[1..]) == Copies(s.pending[1..]);
  }

  lemma ExactPoll(c: Crypto, home: nat, s: Pipe, f: Scores, p: nat)
    requires ExactInv(home, s, f) && PollAnomalies(c, s, p).Some?
    ensures ExactInv(home, PollAnomalies(c, s, p).value, f)
  {
    assert p == home;
    var got, q, rest := s.node.anomalies, s.anomalies[home], Copies(s.pending);
    assert q[0] == (got + q + rest)[|got|];
    assert (got + [q[0]]) + q[1..] + rest == got + q + rest;
  }

  lemma ExactStep(cfg: Settings, s: Pipe, f: Scores, a: Action)
    requires cfg.keyed && ExactInv(cfg.homeAnomalies, s, f) && TakeAction(cfg, s, a).Some?
    requires (a.Publish? && CopyNext(s) ==> a.ok) && (a.Restart? ==> s.pending == [])
    ensures ExactInv(cfg.homeAnomalies, TakeAction(cfg, s, a).value, ScoresStep(f, a))
  {
    match a
    case SaveHead(ok) => ExactSave(cfg, cfg.homeAnomalies, s, f, ok);
    case Publish(partition, ok) =>
      if ok {
        ExactPublish(cfg.homeAnomalies, s, f, Target(cfg, s.pending[0].topic, partition));
      } else {
        ExactDrop(cfg.homeAnomalies, s, f);
      }
    case Poll(topic, p) => if topic.ANOMALIES? { ExactPoll(cfg.crypto, cfg.homeAnomalies, s, f, p); }
    case _ =>
  }

  /** With the constant key and no copy dropped, what the verifier received on the
      anomaly topic, followed by what waits there and what is still to be sent,
      is exactly the records whose score reached its threshold, in order - even
      those whose committed message failed. */
  lemma {:induction false} HighScoresArePublished(cfg: Settings, persisted: Option<(nat, string)>, partitions: nat,
                                                  actions: seq<Action>)
    requires cfg.keyed && cfg.homeAnomalies < partitions && AllSent(cfg, Start(persisted, partitions), actions)
    requires Exec(cfg, Start(persisted, partitions), actions).Some?
    ensures ExactInv(cfg.homeAnomalies, Exec(cfg, Start(persisted, partitions), actions).value, ScoresOf(actions))
  {
    if actions != [] {
      var front, last := actions[..|actions| - 1], actions[|actions| - 1];
      HighScoresArePublished(cfg, persisted, partitions, front);
      ExactStep(cfg, Exec(cfg, Start(persisted, partitions), front).value, ScoresOf(front), last);
    }
  }
}
