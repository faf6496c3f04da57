/** Prover, broker and verifier as one step machine, with restarts of the prover
    between any two steps and polls in any order. */
module Pipeline {
  import opened Wrappers
  import opened Records
  import opened ChainWalk
  import opened HonestRuns
  import opened Forks
  import opened Store
  import opened RingRuns
  import opened Verifier
  import opened Buffers
  import opened VerifierNode
  import R = Restart

  /** keyed: chain topics are published under one constant key, which the
      broker maps to a fixed partition of each topic. */
  datatype Settings = Settings(store: Config, crypto: Crypto, keyed: bool, homeCommitted: nat, homeAnomalies: nat)

  datatype Message = Message(topic: Topic, e: Envelope)

  /** The prover with its durable tier, messages still to be sent for the current
      transaction, the partitions of both topics, and the verifier process.  log,
      picks and lost are the history: every record that an addition returned,
      which of them reached the committed topic, and which never will. */
  datatype Pipe = Pipe(
    sys: R.Sys, pending: seq<Message>, committed: seq<seq<Envelope>>, anomalies: seq<seq<Envelope>>,
    node: NodeState, log: seq<Envelope>, picks: seq<nat>, lost: set<nat>)

  /** One addition is Ingest, WriteRow, SaveHead; then its messages are published.
      Restart stops the prover anywhere and resumes it behind the saved head, or
      at genesis if that cannot be loaded. */
  datatype Action = Ingest(id: string, accepted: bool, c: Result<Committed>, score: real, threshold: real)
                  | WriteRow(ok: bool)
                  | SaveHead(ok: bool)
                  | Publish(partition: nat, ok: bool)
                  | Restart(loaded: bool)
                  | Poll(topic: Topic, partition: nat)
                  | InstallKey(key: Option<string>)

  function Start(persisted: Option<(nat, string)>, partitions: nat): Pipe {
    Pipe(R.AfterBoot([], persisted, true), [], Empty(partitions), Empty(partitions), FRESH_NODE, [], [], {})
  }

  function Empty(partitions: nat): (q: seq<seq<Envelope>>)
    ensures |q| == partitions && forall p :: 0 <= p < partitions ==> q[p] == []
  {
    seq(partitions, p => [])
  }

  // the committed envelope, and the anomaly copy when the score reached the line
  function Envelopes(r: Record): seq<Message> {
    [Message(Topic.COMMITTED, Export(r))] + if r.status.QUARANTINED? then [Message(Topic.ANOMALIES, Export(r))] else []
  }

  predicate Waiting(pending: seq<Message>) {
    pending != [] && pending[0].topic.COMMITTED?
  }

  // the newest record, if its committed message is still to be sent
  function Unsent(s: Pipe): set<nat> {
    if Waiting(s.pending) && s.log != [] then {|s.log| - 1} else {}
  }

  function Commit(cfg: Settings, s: Pipe, id: string, c: Committed, score: real, threshold: real): Option<Pipe> {
    var begun := R.Take(cfg.store, s.sys, R.Begin(id, c, StatusFor(score, threshold)));
    if s.pending != [] || begun.None? then None else Some(s.(sys := begun.value))
  }

  function Write(cfg: Settings, s: Pipe, ok: bool): Option<Pipe> {
    var written := R.Take(cfg.store, s.sys, R.Write(ok));
    if written.None? then None else Some(s.(sys := written.value))
  }

  // the addition returns, and its messages are queued for sending
  function Save(cfg: Settings, s: Pipe, ok: bool): Option<Pipe> {
    var saved := R.Take(cfg.store, s.sys, R.Save(ok));
    if saved.None? then None
    else
      var r := s.sys.phase.record;
      Some(s.(sys := saved.value, pending := Envelopes(r), log := s.log + [Export(r)]))
  }

  // whatever was in memory is gone
  function Reboot(s: Pipe, loaded: bool): Pipe {
    s.(sys := R.AfterBoot(s.sys.rows, s.sys.saved, loaded), pending := [], lost := s.lost + Unsent(s))
  }

  // sending the head of the pending messages failed
  function DropNext(s: Pipe): Pipe
    requires s.pending != []
  {
    s.(pending := s.pending[1..], lost := s.lost + Unsent(s))
  }

  // the head of the pending messages reaches partition p of its topic
  function Deposit(s: Pipe, p: nat): Option<Pipe>
    requires s.pending != []
  {
    var m, rest := s.pending[0], s.(pending := s.pending[1..]);
    if m.topic.COMMITTED? then
      if p >= |s.committed| || s.log == [] then None
      else Some(rest.(committed := s.committed[p := s.committed[p] + [m.e]], picks := s.picks + [|s.log| - 1]))
    else
      if p >= |s.anomalies| then None
      else Some(rest.(anomalies := s.anomalies[p := s.anomalies[p] + [m.e]]))
  }

  function PollCommitted(c: Crypto, s: Pipe, p: nat): Option<Pipe> {
    if p >= |s.committed| || s.committed[p] == [] then None
    else Some(s.(committed := s.committed[p := s.committed[p][1..]],
                 node := NodeStep(c, s.node, Topic.COMMITTED, s.committed[p][0])))
  }

  function PollAnomalies(c: Crypto, s: Pipe, p: nat): Option<Pipe> {
    if p >= |s.anomalies| || s.anomalies[p] == [] then None
    else Some(s.(anomalies := s.anomalies[p := s.anomalies[p][1..]],
                 node := NodeStep(c, s.node, Topic.ANOMALIES, s.anomalies[p][0])))
  }

  function Target(cfg: Settings, topic: Topic, partition: nat): nat {
    if !cfg.keyed then partition else if topic.COMMITTED? then cfg.homeCommitted else cfg.homeAnomalies
  }

  function TakeAction(cfg: Settings, s: Pipe, a: Action): Option<Pipe> {
    match a
    case Ingest(id, accepted, c, score, threshold) =>
      if accepted && c.Ok? then Commit(cfg, s, id, c.value, score, threshold) else Some(s)
    case WriteRow(ok) => Write(cfg, s, ok)
    case SaveHead(ok) => Save(cfg, s, ok)
    case Publish(partition, ok) =>
      if s.pending == [] then None
      else if !ok then Some(DropNext(s))
      else Deposit(s, Target(cfg, s.pending[0].topic, partition))
    case Restart(loaded) => Some(Reboot(s, loaded))
    case Poll(topic, p) =>
      if topic.COMMITTED? then PollCommitted(cfg.crypto, s, p) else PollAnomalies(cfg.crypto, s, p)
    case InstallKey(key) => Some(s.(node := s.node.(v := s.node.v.(pubkey := key))))
  }

  function Exec(cfg: Settings, s: Pipe, actions: seq<Action>): Option<Pipe> {
    if actions == [] then Some(s) else
      var before := Exec(cfg, s, actions[..|actions| - 1]);
      if before.None? then None else TakeAction(cfg, before.value, actions[|actions| - 1])
  }

  // ---- the invariant ----

  // binding hashes are digests
  ghost predicate Sane(a: Action) {
    a.Ingest? && a.c.Ok? ==> |a.c.value.binding| == HEX_WIDTH
  }

  // both sides use one hash function
  ghost predicate SameHash(cfg: Settings) {
    cfg.store.H == cfg.crypto.H && HexDigests(cfg.crypto.H)
  }

  /** What a run of the pipeline starts from: one hash, the constant key, a
      resumed head of digest width, binding hashes of digest width. */
  ghost predicate KeyedRun(cfg: Settings, persisted: Option<(nat, string)>, partitions: nat, actions: seq<Action>) {
    && SameHash(cfg) && cfg.keyed && cfg.homeCommitted < partitions
    && |Resumed(persisted).head| == HEX_WIDTH
    && (forall i :: 0 <= i < |actions| ==> Sane(actions[i]))
  }

  /** What the actions alone tell about the chain: where the prover's head and
      the saved head stand, and what every record of the log was chained on. */
  datatype Lineage = Lineage(at: Origin, saved: Origin, parents: seq<Origin>)

  function LineageStep(l: Lineage, a: Action): Lineage {
    match a
    case SaveHead(ok) =>
      var here := Nth(|l.parents|);
      Lineage(here, if ok then here else l.saved, l.parents + [l.at])
    case Restart(loaded) => l.(at := if loaded then l.saved else Genesis)
    case _ => l
  }

  function LineageOf(actions: seq<Action>): Lineage {
    if actions == [] then Lineage(Persisted, Persisted, [])
    else LineageStep(LineageOf(actions[..|actions| - 1]), actions[|actions| - 1])
  }

  // the chain position a run starts from
  function RootOf(persisted: Option<(nat, string)>): (int, string) {
    (Resumed(persisted).seq_, Resumed(persisted).head)
  }

  // the prover's head is where the lineage says, or the record in flight behind it
  ghost predicate HeadInv(H: Hash, sys: R.Sys, head: (int, string)) {
    match sys.phase
    case Idle => (sys.seq_ as int, sys.head) == head
    case Headed(r) => Continues(H, Export(r), head) && (sys.seq_, sys.head) == (r.seq_, r.chain)
    case Written(r) => Continues(H, Export(r), head) && (sys.seq_, sys.head) == (r.seq_, r.chain)
  }

  ghost predicate LogInv(H: Hash, sys: R.Sys, log: seq<Envelope>, root: (int, string), l: Lineage) {
    && Chained(H, log, l.parents, root) && Known(l.at, |log|) && Known(l.saved, |log|)
    && HeadInv(H, sys, HeadOfOrigin(log, root, l.at))
    && (R.SavedHead(sys).0 as int, R.SavedHead(sys).1) == HeadOfOrigin(log, root, l.saved)
  }

  // only the newest export can still wait for publication
  ghost predicate PendingInv(pending: seq<Message>, log: seq<Envelope>) {
    && (forall i :: 0 <= i < |pending| ==> log != [] && pending[i].e == log[|log| - 1])
    && (forall i :: 0 < i < |pending| ==> pending[i].topic.ANOMALIES?)
  }

  // all committed traffic is in the home partition
  ghost predicate OnlyHome(home: nat, queues: seq<seq<Envelope>>) {
    home < |queues| && forall p :: 0 <= p < |queues| && p != home ==> queues[p] == []
  }

  // the published records, oldest first; the newest export may still wait
  ghost predicate PicksInv(picks: seq<nat>, n: nat, waiting: bool) {
    && Indices(picks, n) && Ascending(picks)
    && (waiting && picks != [] ==> picks[|picks| - 1] < n - 1)
  }

  predicate Published(picks: seq<nat>, i: nat) {
    exists j :: 0 <= j < |picks| && picks[j] == i
  }

  // every record was published, or is lost, or still waits
  ghost predicate Accounted(picks: seq<nat>, lost: set<nat>, n: nat, waiting: bool) {
    && (forall i: nat :: i < n && !(waiting && i == n - 1) ==> Published(picks, i) || i in lost)
    && (forall i: nat :: Published(picks, i) ==> i !in lost)
    && (forall i :: i in lost ==> i < n && !(waiting && i == n - 1))
  }

  // what was received and what is queued are the published records
  ghost predicate Traffic(log: seq<Envelope>, picks: seq<nat>, received: seq<Envelope>, q: seq<Envelope>) {
    Indices(picks, |log|) && received + q == Pick(log, picks)
  }

  // the chain counters of the verifier describe the received records
  ghost predicate VerifierInv(c: Crypto, v: VState, received: seq<Envelope>) {
    && (v.stats.chainBroken == 0 <==> AllLinksPass(c, None, received))
    && (AllLinksPass(c, None, received) ==> v.expectedPrev == HeadOf(received))
  }

  // exports never admit personal data, so the verifier drops none
  ghost predicate CleanLog(log: seq<Envelope>) {
    forall i :: 0 <= i < |log| ==> log[i].piiBytes == Some(0)
  }

  ghost predicate Inv(cfg: Settings, s: Pipe, root: (int, string), l: Lineage) {
    && LogInv(cfg.crypto.H, s.sys, s.log, root, l) && CleanLog(s.log)
    && PendingInv(s.pending, s.log) && (s.pending != [] ==> s.sys.phase.Idle?)
    && OnlyHome(cfg.homeCommitted, s.committed)
    && PicksInv(s.picks, |s.log|, Waiting(s.pending))
    && Accounted(s.picks, s.lost, |s.log|, Waiting(s.pending))
    && Traffic(s.log, s.picks, s.node.committed, s.committed[cfg.homeCommitted])
    && VerifierInv(cfg.crypto, s.node.v, s.node.committed)
  }

  // ---- the protocol invariant holds in every reachable state ----

  lemma ActionKeepsInv(cfg: Settings, s: Pipe, root: (int, string), l: Lineage, a: Action)
    requires SameHash(cfg) && cfg.keyed && Inv(cfg, s, root, l) && Sane(a)
    requires TakeAction(cfg, s, a).Some?
    ensures Inv(cfg, TakeAction(cfg, s, a).value, root, LineageStep(l, a))
  {
    match a
    case Ingest(id, accepted, c, score, threshold) =>
      if accepted && c.Ok? { CommitKeepsInv(cfg, s, root, l, id, c.value, score, threshold); }
    case WriteRow(ok) => WriteKeepsInv(cfg, s, root, l, ok);
    case SaveHead(ok) => SaveKeepsInv(cfg, s, root, l, ok);
    case Publish(partition, ok) =>
      if ok {
        if Waiting(s.pending) {
          DepositCommittedKeepsInv(cfg, s, root, l);
        } else {
          DropPending(s.pending, s.log);
        }
      } else {
        DropKeepsInv(cfg, s, root, l);
      }
    case Restart(loaded) => RebootKeepsInv(cfg, s, root, l, loaded);
    case Poll(topic, p) =>
      if topic.COMMITTED? {
        PollCommittedKeepsInv(cfg, s, root, l, p);
      } else {
        PollAnomaliesKeepsInv(cfg, s, root, l, p);
      }
    case InstallKey(key) =>
  }

  lemma {:induction false} InvHolds(cfg: Settings, persisted: Option<(nat, string)>, partitions: nat,
                                    actions: seq<Action>)
    requires KeyedRun(cfg, persisted, partitions, actions)
    requires Exec(cfg, Start(persisted, partitions), actions).Some?
    ensures Inv(cfg, Exec(cfg, Start(persisted, partitions), actions).value, RootOf(persisted), LineageOf(actions))
  {
    if actions == [] {
      StartInv(cfg, persisted, partitions);
    } else {
      var front, last := actions[..|actions| - 1], actions[|actions| - 1];
      ShorterRun(cfg, persisted, partitions, actions);
      InvHolds(cfg, persisted, partitions, front);
      var before := Exec(cfg, Start(persisted, partitions), front).value;
      ActionKeepsInv(cfg, before, RootOf(persisted), LineageOf(front), last);
    }
  }

  // ---- end to end ----

  // a record between the first and the last one received is lost
  ghost predicate HoleReceived(picks: seq<nat>, lost: set<nat>) {
    picks != [] && exists g :: g in lost && picks[0] < g < picks[|picks| - 1]
  }

  // the received records have no hole exactly when no lost one lies between them
  lemma HolesAreLosses(picks: seq<nat>, m: nat, lost: set<nat>, n: nat, waiting: bool)
    requires PicksInv(picks, n, waiting) && Accounted(picks, lost, n, waiting) && m <= |picks|
    ensures Contiguous(picks[..m]) <==> !HoleReceived(picks[..m], lost)
  {
    var received := picks[..m];
    if Contiguous(received) && m > 0 {
      forall g: nat | received[0] <= g <= received[m - 1] ensures Published(picks, g) { InsidePublished(picks, m, g); }
    }
    if !Contiguous(received) {
      var j :| 0 < j < |received| && !NextAt(received, j);
      var g := received[j - 1] + 1;
      assert picks[j - 1] < picks[j];
      NotBetween(picks, j, g);
      assert picks[j] <= picks[m - 1] && picks[0] <= picks[j - 1];
      assert g in lost;
    }
  }

  /** Under every interleaving, with any publish errors, failed saves and loads,
      and restarts between any two steps, the verifier has received an ascending
      selection of the records; its chain check has raised no break exactly when
      each record received was chained on the one received before it - up to two
      records, or a record and a starting head, with one chain hash. */
  lemma EndToEnd(cfg: Settings, persisted: Option<(nat, string)>, partitions: nat, actions: seq<Action>)
    requires KeyedRun(cfg, persisted, partitions, actions)
    requires Exec(cfg, Start(persisted, partitions), actions).Some?
    ensures var s := Exec(cfg, Start(persisted, partitions), actions).value;
            var n, parents := |s.node.committed|, LineageOf(actions).parents;
            && |parents| == |s.log| && n <= |s.picks| && Indices(s.picks[..n], |s.log|) && Ascending(s.picks[..n])
            && s.node.committed == Pick(s.log, s.picks[..n])
            && (Unbroken(parents, s.picks[..n]) ==> s.node.v.stats.chainBroken == 0)
            && (Echo(s.log, RootOf(persisted))
                || (s.node.v.stats.chainBroken == 0 ==> Unbroken(parents, s.picks[..n])))
  {
    InvHolds(cfg, persisted, partitions, actions);
    var s, l := Exec(cfg, Start(persisted, partitions), actions).value, LineageOf(actions);
    ReceivedPicks(s.log, s.picks, s.node.committed, s.committed[cfg.homeCommitted]);
    DeliveryPassesIffUnbroken(cfg.crypto, s.log, l.parents, RootOf(persisted), s.picks[..|s.node.committed|]);
  }

  // ---- while the ledger does not fork ----

  // the head was saved by the newest addition that returned, if there is one
  predicate HeadSaved(actions: seq<Action>) {
    actions == [] ||
    match actions[|actions| - 1]
    case SaveHead(ok) => ok
    case _ => HeadSaved(actions[..|actions| - 1])
  }

  /** Restarts resume the ledger: they load the head, and the last save succeeded. */
  ghost predicate SafeRestarts(actions: seq<Action>) {
    forall i :: 0 <= i < |actions| && actions[i].Restart? ==> actions[i].loaded && HeadSaved(actions[..i])
  }

  // the end of the log
  function Newest(parents: seq<Origin>): Origin {
    if parents == [] then Persisted else Nth(|parents| - 1)
  }

  /** Restarts that resume behind the last record never fork the ledger. */
  lemma {:induction false} SafeRestartsAreStraight(actions: seq<Action>)
    requires SafeRestarts(actions)
    ensures var l := LineageOf(actions);
            && Straight(l.parents, 0, |l.parents|) && l.at == Newest(l.parents)
            && (HeadSaved(actions) ==> l.saved == Newest(l.parents))
  {
    if actions != [] {
      var front, last := actions[..|actions| - 1], actions[|actions| - 1];
      forall i | 0 <= i < |front| ensures front[i] == actions[i] && front[..i] == actions[..i] { }
      SafeRestartsAreStraight(front);
      assert last == actions[|actions| - 1];
    }
  }

  // no durable tier, or one that is down
  ghost predicate NoSaveSucceeds(actions: seq<Action>) {
    forall i :: 0 <= i < |actions| ==> actions[i] != SaveHead(true)
  }

  lemma {:induction false} NothingSaved(actions: seq<Action>)
    requires NoSaveSucceeds(actions)
    ensures LineageOf(actions).saved == Persisted
  {
    if actions != [] {
      assert forall i :: 0 <= i < |actions| - 1 ==> actions[..|actions| - 1][i] == actions[i];
      NothingSaved(actions[..|actions| - 1]);
      assert actions[|actions| - 1] != SaveHead(true);
    }
  }

  // the first record after a restart without saves starts over
  lemma {:induction false} StartsOver(actions: seq<Action>, i: nat)
    requires NoSaveSucceeds(actions) && i < |actions| && actions[i].Restart?
    ensures var p, l := |LineageOf(actions[..i]).parents|, LineageOf(actions);
            p <= |l.parents| && !(if p < |l.parents| then l.parents[p] else l.at).Nth?
  {
    var front, last := actions[..|actions| - 1], actions[|actions| - 1];
    assert forall j :: 0 <= j < |front| ==> front[j] == actions[j];
    NothingSaved(front);
    if i < |front| {
      StartsOver(front, i);
      assert front[..i] == actions[..i];
    }
    assert last == actions[|actions| - 1];
  }

  /** Without a durable tier every restart between two records forks the ledger. */
  lemma RestartWithoutSavesForks(actions: seq<Action>, i: nat)
    requires NoSaveSucceeds(actions) && i < |actions| && actions[i].Restart?
    requires 0 < |LineageOf(actions[..i]).parents| < |LineageOf(actions).parents|
    ensures !Straight(LineageOf(actions).parents, 0, |LineageOf(actions).parents|)
  {
    StartsOver(actions, i);
    assert LineageOf(actions).parents[|LineageOf(actions[..i]).parents|] != Nth(|LineageOf(actions[..i]).parents| - 1);
  }

  // the head before the first record of the log
  function FirstHead(log: seq<Envelope>): string {
    if log == [] then GENESIS else log[0].Prev()
  }

  /** While the ledger has not forked, no break means that none of the records
      between the first and the last received one was lost - by a failed publish,
      or by a restart in the gap between save and publish. */
  lemma LossesAreBreaks(cfg: Settings, persisted: Option<(nat, string)>, partitions: nat, actions: seq<Action>)
    requires KeyedRun(cfg, persisted, partitions, actions)
    requires Exec(cfg, Start(persisted, partitions), actions).Some?
    requires Straight(LineageOf(actions).parents, 0, |LineageOf(actions).parents|)
    ensures var s := Exec(cfg, Start(persisted, partitions), actions).value;
            var n := |s.node.committed|;
            && n <= |s.picks|
            && (!HoleReceived(s.picks[..n], s.lost) ==> s.node.v.stats.chainBroken == 0)
            && (HashFailure(cfg.crypto.H, s.log, FirstHead(s.log))
                || (s.node.v.stats.chainBroken == 0 ==> !HoleReceived(s.picks[..n], s.lost)))
  {
    InvHolds(cfg, persisted, partitions, actions);
    HonestLosses(cfg, Exec(cfg, Start(persisted, partitions), actions).value, RootOf(persisted), LineageOf(actions));
  }

  // ---- without losses ----

  /** No publish fails, and no restart falls between a save and the publish of
      its record. */
  predicate NothingDropped(cfg: Settings, start: Pipe, actions: seq<Action>) {
    actions == [] ||
    (var front, last := actions[..|actions| - 1], actions[|actions| - 1];
     var before := Exec(cfg, start, front);
     && NothingDropped(cfg, start, front)
     && (last.Publish? ==> last.ok)
     && (last.Restart? && before.Some? ==> !Waiting(before.value.pending)))
  }

  /** The records received are a prefix of the log; a break was counted exactly
      if they fork, and the walk over the newest of them fails exactly if those
      do - up to two records, or a record and a starting head, with one chain
      hash. */
  ghost predicate OnlyForksBreak(H: Hash, s: Pipe, parents: seq<Origin>, root: (int, string), window: seq<Envelope>) {
    var m := |s.node.committed|;
    && s.node.committed <= s.log && |window| <= m <= |parents|
    && (Straight(parents, 0, m) ==> s.node.v.stats.chainBroken == 0)
    && (Straight(parents, m - |window|, m) ==> IntactChain(H, BySeq(window)))
    && (Echo(s.log, root) || (s.node.v.stats.chainBroken == 0 ==> Straight(parents, 0, m)))
    && (Echo(s.log, root) || (IntactChain(H, BySeq(window)) ==> Straight(parents, m - |window|, m)))
  }

  /** With one ingest thread, the constant key and nothing dropped, in every
      reachable state the verifier has seen a prefix of the records in order; it
      has counted no break exactly when that prefix does not fork, and the
      dashboard's own walk over any part of its buffer is intact exactly when
      that part does not - saves, loads and restarts are arbitrary. */
  lemma NoFalseBreaks(cfg: Settings, persisted: Option<(nat, string)>, partitions: nat, actions: seq<Action>,
                      buffer: nat, n: int)
    requires KeyedRun(cfg, persisted, partitions, actions)
    requires NothingDropped(cfg, Start(persisted, partitions), actions)
    requires Exec(cfg, Start(persisted, partitions), actions).Some?
    ensures var s := Exec(cfg, Start(persisted, partitions), actions).value;
            OnlyForksBreak(cfg.crypto.H, s, LineageOf(actions).parents, RootOf(persisted),
                           Snapshot(LastN(s.node.committed, buffer), n))
  {
    NothingLost(cfg, Start(persisted, partitions), actions);
    InvHolds(cfg, persisted, partitions, actions);
    var s := Exec(cfg, Start(persisted, partitions), actions).value;
    PrefixVerdicts(cfg, s, RootOf(persisted), LineageOf(actions), buffer, n);
  }

  // ---- why the key matters ----

  function Then(cfg: Settings, s: Option<Pipe>, a: Action): Option<Pipe> {
    if s.None? then None else TakeAction(cfg, s.value, a)
  }

  // commit a record durably and publish it to partition p
  function Send(cfg: Settings, s: Option<Pipe>, id: string, c: Committed, p: nat): Option<Pipe> {
    var begun := Then(cfg, s, Ingest(id, true, Ok(c), 0.0, 1.0));
    Then(cfg, Then(cfg, Then(cfg, begun, WriteRow(true)), SaveHead(true)), Publish(p, true))
  }

  /** Without the constant key two records can land in different partitions and
      be polled in the wrong order: a valid ledger then raises a false break. */
  lemma KeylessFalseBreak(cfg: Settings, id: string, c: Committed, id': string, c': Committed)
    requires SameHash(cfg) && !cfg.keyed && |c.binding| == HEX_WIDTH && |c'.binding| == HEX_WIDTH
    ensures var sent := Send(cfg, Send(cfg, Some(Start(None, 2)), id, c, 0), id', c', 1);
            var run := Then(cfg, Then(cfg, sent, Poll(Topic.COMMITTED, 1)), Poll(Topic.COMMITTED, 0));
            && run.Some? && |run.value.log| == 2 && HonestRun(cfg.crypto.H, run.value.log, GENESIS)
            && (HashFailure(cfg.crypto.H, run.value.log, GENESIS) || run.value.node.v.stats.chainBroken == 1)
  {
    SendBoth(cfg, id, c, id', c');
    var sent := Send(cfg, Send(cfg, Some(Start(None, 2)), id, c, 0), id', c', 1).value;
    PollLaterFirst(cfg, sent, sent.log[0], sent.log[1]);
    WrongOrder(cfg.crypto, sent.log);
  }

  // ---- the parts seen alone ----

  // what an action is for the write path alone
  function StepOf(a: Action): (steps: seq<R.Step>)
    ensures |steps| <= 1
  {
    match a
    case Ingest(id, accepted, c, score, threshold) =>
      if accepted && c.Ok? then [R.Begin(id, c.value, StatusFor(score, threshold))] else []
    case WriteRow(ok) => [R.Write(ok)]
    case SaveHead(ok) => [R.Save(ok)]
    case Restart(loaded) => [R.Reboot(loaded)]
    case _ => []
  }

  function StepsOf(actions: seq<Action>): seq<R.Step> {
    if actions == [] then [] else StepsOf(actions[..|actions| - 1]) + StepOf(actions[|actions| - 1])
  }

  /** The prover inside the pipeline runs as the write path of Restart does, so
      what is proved there of rows and heads holds here. */
  lemma {:induction false} RefinesRestart(cfg: Settings, partitions: nat, actions: seq<Action>)
    requires Exec(cfg, Start(None, partitions), actions).Some?
    ensures R.Exec(cfg.store, R.START, StepsOf(actions))
         == Some(Exec(cfg, Start(None, partitions), actions).value.sys)
  {
    if actions != [] {
      var front, last := actions[..|actions| - 1], actions[|actions| - 1];
      RefinesRestart(cfg, partitions, front);
      ActionIsStep(cfg, Exec(cfg, Start(None, partitions), front).value, last);
      StepsSnoc(cfg.store, StepsOf(front), StepOf(last));
    }
  }

  // the write path after one more action
  function AfterStep(cfg: Config, sys: R.Sys, steps: seq<R.Step>): Option<R.Sys>
    requires |steps| <= 1
  {
    if steps == [] then Some(sys) else R.Take(cfg, sys, steps[0])
  }

  lemma ActionIsStep(cfg: Settings, s: Pipe, a: Action)
    requires TakeAction(cfg, s, a).Some?
    ensures AfterStep(cfg.store, s.sys, StepOf(a)) == Some(TakeAction(cfg, s, a).value.sys)
  {
  }

  lemma StepsSnoc(cfg: Config, front: seq<R.Step>, more: seq<R.Step>)
    requires |more| <= 1 && R.Exec(cfg, R.START, front).Some?
    ensures R.Exec(cfg, R.START, front + more) == AfterStep(cfg, R.Exec(cfg, R.START, front).value, more)
  {
    if more == [] {
      assert front + more == front;
    } else {
      assert (front + more)[..|front|] == front;
    }
  }

  // the key the verifier was given last
  function LastKey(actions: seq<Action>): Option<string> {
    if actions == [] then None else
      match actions[|actions| - 1]
      case InstallKey(key) => key
      case _ => LastKey(actions[..|actions| - 1])
  }

  /** The verifier checks signatures against the key that was installed last. */
  lemma {:induction false} KeyIsLastInstalled(cfg: Settings, persisted: Option<(nat, string)>, partitions: nat,
                                              actions: seq<Action>)
    requires Exec(cfg, Start(persisted, partitions), actions).Some?
    ensures Exec(cfg, Start(persisted, partitions), actions).value.node.v.pubkey == LastKey(actions)
  {
    if actions != [] { KeyIsLastInstalled(cfg, persisted, partitions, actions[..|actions| - 1]); }
  }

  // ---- what restarts and failed publishes forget ----

  lemma {:induction false} LostStaysLost(cfg: Settings, s: Pipe, actions: seq<Action>)
    requires Exec(cfg, s, actions).Some?
    ensures s.lost <= Exec(cfg, s, actions).value.lost
  {
    if actions != [] { LostStaysLost(cfg, s, actions[..|actions| - 1]); }
  }

  lemma {:induction false} ExecConcat(cfg: Settings, s: Pipe, a: seq<Action>, b: seq<Action>)
    ensures Exec(cfg, s, a + b) == if Exec(cfg, s, a).None? then None else Exec(cfg, Exec(cfg, s, a).value, b)
  {
    if b == [] {
      assert a + b == a;
    } else {
      ExecConcat(cfg, s, a, b[..|b| - 1]);
      assert (a + b)[..|a + b| - 1] == a + b[..|b| - 1];
    }
  }

  // the record that a restart or a failed publish in state s gives up, if any
  predicate GivenUp(s: Pipe, i: nat) {
    Waiting(s.pending) && i + 1 == |s.log|
  }

  predicate GivesUp(a: Action) {
    a.Restart? || (a.Publish? && !a.ok)
  }

  lemma GivenUpIsLost(cfg: Settings, s: Pipe, a: Action, rest: seq<Action>, i: nat)
    requires GivenUp(s, i) && GivesUp(a) && TakeAction(cfg, s, a).Some?
    requires Exec(cfg, TakeAction(cfg, s, a).value, rest).Some?
    ensures i in Exec(cfg, TakeAction(cfg, s, a).value, rest).value.lost
  {
    LostStaysLost(cfg, TakeAction(cfg, s, a).value, rest);
    assert i in TakeAction(cfg, s, a).value.lost;
  }

  lemma ExecThrough(cfg: Settings, start: Pipe, front: seq<Action>, a: Action, rest: seq<Action>)
    requires Exec(cfg, start, front + [a] + rest).Some?
    ensures Exec(cfg, start, front).Some? && TakeAction(cfg, Exec(cfg, start, front).value, a).Some?
    ensures Exec(cfg, start, front + [a] + rest)
         == Exec(cfg, TakeAction(cfg, Exec(cfg, start, front).value, a).value, rest)
  {
    var run := front + [a];
    ExecConcat(cfg, start, run, rest);
    assert run[..|run| - 1] == front && run[|run| - 1] == a;
  }

  /** A record whose committed message still waited when the prover restarted, or
      when its publish failed, is never published, whatever happens later. */
  lemma UnsentIsNeverPublished(cfg: Settings, persisted: Option<(nat, string)>, partitions: nat,
                               front: seq<Action>, a: Action, rest: seq<Action>, i: nat)
    requires KeyedRun(cfg, persisted, partitions, front + [a] + rest) && GivesUp(a)
    requires Exec(cfg, Start(persisted, partitions), front).Some?
    requires GivenUp(Exec(cfg, Start(persisted, partitions), front).value, i)
    requires Exec(cfg, Start(persisted, partitions), front + [a] + rest).Some?
    ensures !Published(Exec(cfg, Start(persisted, partitions), front + [a] + rest).value.picks, i)
  {
    var start := Start(persisted, partitions);
    ExecThrough(cfg, start, front, a, rest);
    GivenUpIsLost(cfg, Exec(cfg, start, front).value, a, rest, i);
    LostNotPublished(cfg, persisted, partitions, front + [a] + rest, i);
  }

  lemma LostNotPublished(cfg: Settings, persisted: Option<(nat, string)>, partitions: nat, actions: seq<Action>, i: nat)
    requires KeyedRun(cfg, persisted, partitions, actions)
    requires Exec(cfg, Start(persisted, partitions), actions).Some?
    requires i in Exec(cfg, Start(persisted, partitions), actions).value.lost
    ensures !Published(Exec(cfg, Start(persisted, partitions), actions).value.picks, i)
  {
    InvHolds(cfg, persisted, partitions, actions);
  }

  // ---- proofs: what one action keeps ----

  lemma CommitKeepsInv(cfg: Settings, s: Pipe, root: (int, string), l: Lineage, id: string, c: Committed,
                         score: real, threshold: real)
    requires SameHash(cfg) && Inv(cfg, s, root, l) && |c.binding| == HEX_WIDTH
    requires Commit(cfg, s, id, c, score, threshold).Some?
    ensures Inv(cfg, Commit(cfg, s, id, c, score, threshold).value, root, l)
  {
  }

  lemma WriteKeepsInv(cfg: Settings, s: Pipe, root: (int, string), l: Lineage, ok: bool)
    requires Inv(cfg, s, root, l) && Write(cfg, s, ok).Some?
    ensures Inv(cfg, Write(cfg, s, ok).value, root, l)
  {
  }

  // the record in flight joins the log
  lemma SaveKeepsLog(cfg: Settings, s: Pipe, root: (int, string), l: Lineage, ok: bool)
    requires LogInv(cfg.crypto.H, s.sys, s.log, root, l) && Save(cfg, s, ok).Some?
    ensures var s' := Save(cfg, s, ok).value;
            LogInv(cfg.crypto.H, s'.sys, s'.log, root, LineageStep(l, SaveHead(ok))) && PendingInv(s'.pending, s'.log)
  {
    ExtendChained(cfg.crypto.H, s.log, l.parents, root, Export(s.sys.phase.record), l.at);
  }

  lemma GrowLog(log: seq<Envelope>, e: Envelope, picks: seq<nat>, lost: set<nat>, received: seq<Envelope>,
                q: seq<Envelope>)
    requires Traffic(log, picks, received, q) && PicksInv(picks, |log|, false) && Accounted(picks, lost, |log|, false)
    ensures Traffic(log + [e], picks, received, q) && PicksInv(picks, |log| + 1, true)
    ensures Accounted(picks, lost, |log| + 1, true)
  {
    assert Pick(log + [e], picks) == Pick(log, picks);
  }

  lemma SaveKeepsInv(cfg: Settings, s: Pipe, root: (int, string), l: Lineage, ok: bool)
    requires Inv(cfg, s, root, l) && Save(cfg, s, ok).Some?
    ensures Inv(cfg, Save(cfg, s, ok).value, root, LineageStep(l, SaveHead(ok)))
  {
    SaveKeepsLog(cfg, s, root, l, ok);
    GrowLog(s.log, Export(s.sys.phase.record), s.picks, s.lost, s.node.committed, s.committed[cfg.homeCommitted]);
  }

  // a record that will not be published counts as lost
  lemma LoseUnsent(picks: seq<nat>, lost: set<nat>, n: nat)
    requires n > 0 && PicksInv(picks, n, true) && Accounted(picks, lost, n, true)
    ensures PicksInv(picks, n, false) && Accounted(picks, lost + {n - 1}, n, false)
  {
    forall i: nat | Published(picks, i)
      ensures i != n - 1
    {
      var j :| 0 <= j < |picks| && picks[j] == i;
      assert picks[j] <= picks[|picks| - 1];
    }
  }

  // the same for whatever still waits, if anything does
  lemma LoseWaiting(s: Pipe)
    requires PicksInv(s.picks, |s.log|, Waiting(s.pending)) && PendingInv(s.pending, s.log)
    requires Accounted(s.picks, s.lost, |s.log|, Waiting(s.pending))
    ensures PicksInv(s.picks, |s.log|, false) && Accounted(s.picks, s.lost + Unsent(s), |s.log|, false)
  {
    if Waiting(s.pending) {
      assert s.pending[0].e == s.log[|s.log| - 1];
      LoseUnsent(s.picks, s.lost, |s.log|);
    }
  }

  lemma RebootKeepsLog(H: Hash, s: Pipe, root: (int, string), l: Lineage, loaded: bool)
    requires LogInv(H, s.sys, s.log, root, l)
    ensures LogInv(H, Reboot(s, loaded).sys, s.log, root, LineageStep(l, Restart(loaded)))
  {
  }

  lemma RebootKeepsInv(cfg: Settings, s: Pipe, root: (int, string), l: Lineage, loaded: bool)
    requires Inv(cfg, s, root, l)
    ensures Inv(cfg, Reboot(s, loaded), root, LineageStep(l, Restart(loaded)))
  {
    RebootKeepsLog(cfg.crypto.H, s, root, l, loaded);
    LoseWaiting(s);
  }

  lemma DropKeepsInv(cfg: Settings, s: Pipe, root: (int, string), l: Lineage)
    requires Inv(cfg, s, root, l) && s.pending != []
    ensures Inv(cfg, DropNext(s), root, l)
  {
    DropPending(s.pending, s.log);
    LoseWaiting(s);
  }

  // dropping the head of the pending messages
  lemma DropPending(pending: seq<Message>, log: seq<Envelope>)
    requires pending != [] && PendingInv(pending, log)
    ensures PendingInv(pending[1..], log) && !Waiting(pending[1..]) && log != [] && pending[0].e == log[|log| - 1]
  {
    assert pending[0].e == log[|log| - 1];
    if |pending| > 1 { assert pending[1].topic.ANOMALIES?; }
  }

  lemma PublishedPicks(log: seq<Envelope>, picks: seq<nat>, received: seq<Envelope>, q: seq<Envelope>)
    requires log != [] && PicksInv(picks, |log|, true) && Traffic(log, picks, received, q)
    ensures PicksInv(picks + [|log| - 1], |log|, false)
    ensures Traffic(log, picks + [|log| - 1], received, q + [log[|log| - 1]])
  {
    forall i | 0 <= i < |picks| ensures picks[i] < |log| - 1 { }
    assert Pick(log, picks + [|log| - 1]) == Pick(log, picks) + [log[|log| - 1]];
    assert received + (q + [log[|log| - 1]]) == (received + q) + [log[|log| - 1]];
  }

  lemma PublishedAccounted(picks: seq<nat>, lost: set<nat>, n: nat)
    requires n > 0 && Accounted(picks, lost, n, true)
    ensures Accounted(picks + [n - 1], lost, n, false)
  {
    var more := picks + [n - 1];
    assert more[|picks|] == n - 1;
    forall i: nat
      ensures Published(more, i) <==> Published(picks, i) || i == n - 1
    {
      if Published(picks, i) {
        var j :| 0 <= j < |picks| && picks[j] == i;
        assert more[j] == i;
      }
    }
  }

  // what a deposit in the home partition does to the traffic
  lemma DepositTraffic(s: Pipe, home: nat)
    requires OnlyHome(home, s.committed) && Waiting(s.pending) && PendingInv(s.pending, s.log)
    requires PicksInv(s.picks, |s.log|, true) && Accounted(s.picks, s.lost, |s.log|, true)
    requires Traffic(s.log, s.picks, s.node.committed, s.committed[home])
    ensures Deposit(s, home).Some?
    ensures var t := Deposit(s, home).value;
            && OnlyHome(home, t.committed) && PendingInv(t.pending, t.log) && !Waiting(t.pending)
            && PicksInv(t.picks, |t.log|, false) && Accounted(t.picks, t.lost, |t.log|, false)
            && Traffic(t.log, t.picks, t.node.committed, t.committed[home])
  {
    var q := s.committed[home];
    DropPending(s.pending, s.log);
    PublishedPicks(s.log, s.picks, s.node.committed, q);
    PublishedAccounted(s.picks, s.lost, |s.log|);
    OnlyHomeGrows(home, s.committed, q + [s.pending[0].e]);
  }

  lemma DepositCommittedKeepsInv(cfg: Settings, s: Pipe, root: (int, string), l: Lineage)
    requires Inv(cfg, s, root, l) && Waiting(s.pending)
    ensures Deposit(s, cfg.homeCommitted).Some? && Inv(cfg, Deposit(s, cfg.homeCommitted).value, root, l)
  {
    DepositTraffic(s, cfg.homeCommitted);
  }

  lemma OnlyHomeGrows(home: nat, queues: seq<seq<Envelope>>, q: seq<Envelope>)
    requires OnlyHome(home, queues)
    ensures OnlyHome(home, queues[home := q]) && queues[home := q][home] == q
  {
  }

  lemma ReceiveKeepsVerifierInv(c: Crypto, node: NodeState, e: Envelope)
    requires VerifierInv(c, node.v, node.committed) && e.piiBytes == Some(0)
    ensures var after := NodeStep(c, node, Topic.COMMITTED, e);
            VerifierInv(c, after.v, after.committed) && after.committed == node.committed + [e]
  {
    OneDelivery(c, node.v, e);
    AllLinksPassSnoc(c, None, node.committed, e);
  }

  // the oldest queued record is a record of the log
  lemma Dequeue(log: seq<Envelope>, picks: seq<nat>, received: seq<Envelope>, q: seq<Envelope>)
    requires Traffic(log, picks, received, q) && q != [] && CleanLog(log)
    ensures q[0].piiBytes == Some(0) && Traffic(log, picks, received + [q[0]], q[1..])
  {
    assert q[0] == (received + q)[|received|] == log[picks[|received|]];
    assert (received + [q[0]]) + q[1..] == received + q;
  }

  lemma PollCommittedKeepsInv(cfg: Settings, s: Pipe, root: (int, string), l: Lineage, p: nat)
    requires Inv(cfg, s, root, l) && PollCommitted(cfg.crypto, s, p).Some?
    ensures Inv(cfg, PollCommitted(cfg.crypto, s, p).value, root, l)
  {
    assert p == cfg.homeCommitted;
    Dequeue(s.log, s.picks, s.node.committed, s.committed[p]);
    ReceiveKeepsVerifierInv(cfg.crypto, s.node, s.committed[p][0]);
  }

  lemma AnomalyLeavesVerifier(c: Crypto, node: NodeState, e: Envelope)
    ensures NodeStep(c, node, Topic.ANOMALIES, e).v == node.v
    ensures NodeStep(c, node, Topic.ANOMALIES, e).committed == node.committed
  {
  }

  lemma PollAnomaliesKeepsInv(cfg: Settings, s: Pipe, root: (int, string), l: Lineage, p: nat)
    requires Inv(cfg, s, root, l) && PollAnomalies(cfg.crypto, s, p).Some?
    ensures Inv(cfg, PollAnomalies(cfg.crypto, s, p).value, root, l)
  {
    AnomalyLeavesVerifier(cfg.crypto, s.node, s.anomalies[p][0]);
  }

  lemma StartInv(cfg: Settings, persisted: Option<(nat, string)>, partitions: nat)
    requires SameHash(cfg) && cfg.homeCommitted < partitions && |Resumed(persisted).head| == HEX_WIDTH
    ensures Inv(cfg, Start(persisted, partitions), RootOf(persisted), LineageOf([]))
  {
    assert Pick([], []) == [];
  }

  lemma ShorterRun(cfg: Settings, persisted: Option<(nat, string)>, partitions: nat, actions: seq<Action>)
    requires KeyedRun(cfg, persisted, partitions, actions) && actions != []
    ensures var front, last := actions[..|actions| - 1], actions[|actions| - 1];
            && KeyedRun(cfg, persisted, partitions, front) && Sane(last)
  {
    var front := actions[..|actions| - 1];
    forall i | 0 <= i < |front| ensures front[i] == actions[i] { }
  }

  // ---- proofs: end to end ----

  lemma {:induction false} ContiguousAt(picks: seq<nat>, j: nat)
    requires Contiguous(picks) && j < |picks|
    ensures picks[j] == picks[0] + j
  {
    if j > 0 {
      ContiguousAt(picks, j - 1);
      assert NextAt(picks, j);
    }
  }

  lemma InsidePublished(picks: seq<nat>, m: nat, g: nat)
    requires 0 < m <= |picks| && Contiguous(picks[..m]) && picks[0] <= g <= picks[m - 1]
    ensures Published(picks, g)
  {
    ContiguousAt(picks[..m], m - 1);
    ContiguousAt(picks[..m], g - picks[0]);
    assert picks[g - picks[0]] == g;
  }

  lemma NotBetween(picks: seq<nat>, j: nat, g: nat)
    requires Ascending(picks) && 0 < j < |picks| && picks[j - 1] < g < picks[j]
    ensures !Published(picks, g)
  {
    forall i | 0 <= i < |picks|
      ensures picks[i] != g
    {
      if i < j - 1 { assert picks[i] < picks[j - 1]; }
      if i > j { assert picks[j] < picks[i]; }
    }
  }

  lemma HonestLosses(cfg: Settings, s: Pipe, root: (int, string), l: Lineage)
    requires Inv(cfg, s, root, l) && Straight(l.parents, 0, |l.parents|)
    ensures var n := |s.node.committed|;
            && n <= |s.picks|
            && (!HoleReceived(s.picks[..n], s.lost) ==> s.node.v.stats.chainBroken == 0)
            && (HashFailure(cfg.crypto.H, s.log, FirstHead(s.log))
                || (s.node.v.stats.chainBroken == 0 ==> !HoleReceived(s.picks[..n], s.lost)))
  {
    var n := |s.node.committed|;
    ReceivedPicks(s.log, s.picks, s.node.committed, s.committed[cfg.homeCommitted]);
    HolesAreLosses(s.picks, n, s.lost, |s.log|, Waiting(s.pending));
    HonestDelivery(cfg.crypto, s.log, l.parents, root, s.picks[..n]);
  }

  lemma HonestDelivery(c: Crypto, log: seq<Envelope>, parents: seq<Origin>, root: (int, string), picks: seq<nat>)
    requires Chained(c.H, log, parents, root) && Straight(parents, 0, |parents|) && Indices(picks, |log|)
    ensures Contiguous(picks) ==> AllLinksPass(c, None, Pick(log, picks))
    ensures HashFailure(c.H, log, FirstHead(log)) || (AllLinksPass(c, None, Pick(log, picks)) ==> Contiguous(picks))
  {
    if log != [] {
      StraightIsHonest(c.H, log, parents, root, 0, |log|);
      assert log[0..|log|] == log;
      DeliveryPassesIffContiguous(c, log, FirstHead(log), picks);
    }
  }

  lemma ReceivedPicks(log: seq<Envelope>, picks: seq<nat>, received: seq<Envelope>, q: seq<Envelope>)
    requires Indices(picks, |log|) && Ascending(picks) && received + q == Pick(log, picks)
    ensures |received| <= |picks| && Indices(picks[..|received|], |log|) && Ascending(picks[..|received|])
    ensures received == Pick(log, picks[..|received|])
  {
    assert |received + q| == |picks|;
    forall i | 0 <= i < |received|
      ensures received[i] == log[picks[i]]
    {
      assert received[i] == (received + q)[i];
    }
  }

  // ---- proofs: without losses ----

  lemma {:induction false} NothingLost(cfg: Settings, start: Pipe, actions: seq<Action>)
    requires start.lost == {} && NothingDropped(cfg, start, actions) && Exec(cfg, start, actions).Some?
    ensures Exec(cfg, start, actions).value.lost == {}
  {
    if actions != [] { NothingLost(cfg, start, actions[..|actions| - 1]); }
  }

  // with everything accounted for and nothing lost, the picks are 0, 1, 2, ...
  lemma {:induction false} PicksAreAll(picks: seq<nat>, n: nat, waiting: bool, j: nat)
    requires PicksInv(picks, n, waiting) && Accounted(picks, {}, n, waiting) && j < |picks|
    ensures picks[j] == j
  {
    if j == 0 {
      FirstIsLeast(picks);
    } else {
      PicksAreAll(picks, n, waiting, j - 1);
      assert picks[j - 1] < picks[j];
      if picks[j] > j { NotBetween(picks, j, j); }
    }
    assert picks[j] <= picks[|picks| - 1];
  }

  lemma FirstIsLeast(picks: seq<nat>)
    requires Ascending(picks) && picks != []
    ensures forall g: nat :: g < picks[0] ==> !Published(picks, g)
  {
    forall i | 0 <= i < |picks| ensures picks[0] <= picks[i] { if i > 0 { assert picks[0] < picks[i]; } }
  }

  lemma PrefixReceived(log: seq<Envelope>, picks: seq<nat>, waiting: bool, received: seq<Envelope>)
    requires PicksInv(picks, |log|, waiting) && Accounted(picks, {}, |log|, waiting)
    requires |received| <= |picks| && Indices(picks[..|received|], |log|) && received == Pick(log, picks[..|received|])
    ensures |received| <= |log| && received == log[..|received|]
    ensures forall j :: 0 <= j < |received| ==> picks[j] == j
  {
    forall j | 0 <= j < |received| ensures picks[j] == j { PicksAreAll(picks, |log|, waiting, j); }
    if received != [] { assert picks[..|received|][|received| - 1] == |received| - 1; }
    forall j | 0 <= j < |received| ensures received[j] == log[j] { assert picks[..|received|][j] == j; }
  }

  // for a prefix, "each chained on the one before" is the straight line
  lemma PrefixUnbroken(parents: seq<Origin>, picks: seq<nat>)
    requires |picks| <= |parents| && Indices(picks, |parents|) && forall j :: 0 <= j < |picks| ==> picks[j] == j
    ensures Unbroken(parents, picks) <==> Straight(parents, 0, |picks|)
  {
    if Unbroken(parents, picks) {
      forall i | 0 < i < |picks| ensures parents[i] == Nth(i - 1) { assert ChildAt(parents, picks, i); }
    }
  }

  lemma PrefixVerdict(cfg: Settings, s: Pipe, root: (int, string), l: Lineage)
    requires Inv(cfg, s, root, l) && s.lost == {}
    ensures var m := |s.node.committed|;
            && m <= |s.log| == |l.parents| && s.node.committed == s.log[..m]
            && (Straight(l.parents, 0, m) ==> s.node.v.stats.chainBroken == 0)
            && (Echo(s.log, root) || (s.node.v.stats.chainBroken == 0 ==> Straight(l.parents, 0, m)))
  {
    var m := |s.node.committed|;
    ReceivedPicks(s.log, s.picks, s.node.committed, s.committed[cfg.homeCommitted]);
    PrefixReceived(s.log, s.picks, Waiting(s.pending), s.node.committed);
    PrefixUnbroken(l.parents, s.picks[..m]);
    DeliveryPassesIffUnbroken(cfg.crypto, s.log, l.parents, root, s.picks[..m]);
  }

  lemma PrefixVerdicts(cfg: Settings, s: Pipe, root: (int, string), l: Lineage, buffer: nat, n: int)
    requires Inv(cfg, s, root, l) && s.lost == {}
    ensures OnlyForksBreak(cfg.crypto.H, s, l.parents, root, Snapshot(LastN(s.node.committed, buffer), n))
  {
    PrefixVerdict(cfg, s, root, l);
    BufferWalk(cfg.crypto.H, s.log, l.parents, root, |s.node.committed|, buffer, n);
  }

  lemma BufferWalk(H: Hash, log: seq<Envelope>, parents: seq<Origin>, root: (int, string), m: nat, buffer: nat, n: int)
    requires Chained(H, log, parents, root) && m <= |log|
    ensures var window := Snapshot(LastN(log[..m], buffer), n);
            && |window| <= m && (Straight(parents, m - |window|, m) ==> IntactChain(H, BySeq(window)))
            && (Echo(log, root) || (IntactChain(H, BySeq(window)) ==> Straight(parents, m - |window|, m)))
  {
    var window := Snapshot(LastN(log[..m], buffer), n);
    SnapshotIsSlice(log[..m], buffer, n);
    assert window == log[m - |window|..m];
    WindowIntactIffStraight(H, log, parents, root, m - |window|, m, window);
  }

  lemma SnapshotIsSlice(s: seq<Envelope>, buffer: nat, n: int)
    ensures var w := Snapshot(LastN(s, buffer), n);
            |w| <= |s| && w == s[|s| - |w|..]
  {
  }

  // ---- proofs: why the key matters ----

  // an idle prover at the end of an honest log
  ghost predicate AtEnd(H: Hash, sys: R.Sys, log: seq<Envelope>) {
    && HonestRun(H, log, GENESIS) && sys.phase.Idle?
    && (sys.seq_ as int, sys.head) == if log == [] then (0, GENESIS) else (log[|log| - 1].Seq(), log[|log| - 1].Chain())
  }

  // the record an idle prover creates next
  function NextRecord(cfg: Settings, s: Pipe, id: string, c: Committed): Record {
    NewRecord(cfg.store, State([], s.sys.seq_, s.sys.head, NO_COUNTS, 0), id, c, VERIFIED)
  }

  lemma StoreEffect(cfg: Settings, s: Pipe, id: string, c: Committed)
    requires SameHash(cfg) && |c.binding| == HEX_WIDTH
    requires s.pending == [] && AtEnd(cfg.crypto.H, s.sys, s.log)
    ensures var r := NextRecord(cfg, s, id, c);
            var begun := Then(cfg, Some(s), Ingest(id, true, Ok(c), 0.0, 1.0));
            var saved := Then(cfg, Then(cfg, begun, WriteRow(true)), SaveHead(true));
            && saved.Some? && saved.value.pending == [Message(Topic.COMMITTED, Export(r))]
            && saved.value.log == s.log + [Export(r)]
            && saved.value.committed == s.committed && saved.value.node == s.node
            && AtEnd(cfg.crypto.H, saved.value.sys, saved.value.log)
  {
    ExtendHonest(cfg.crypto.H, s.log, GENESIS, Export(NextRecord(cfg, s, id, c)));
  }

  lemma SendEffect(cfg: Settings, s: Pipe, id: string, c: Committed, p: nat)
    requires SameHash(cfg) && !cfg.keyed && p < |s.committed| && |c.binding| == HEX_WIDTH
    requires s.pending == [] && AtEnd(cfg.crypto.H, s.sys, s.log)
    ensures var after := Send(cfg, Some(s), id, c, p);
            var e := Export(NextRecord(cfg, s, id, c));
            && after.Some? && after.value.pending == [] && after.value.log == s.log + [e]
            && after.value.committed == s.committed[p := s.committed[p] + [e]]
            && after.value.node == s.node && e.piiBytes == Some(0)
            && AtEnd(cfg.crypto.H, after.value.sys, after.value.log)
  {
    StoreEffect(cfg, s, id, c);
  }

  // of two consecutive records the later one arrives first
  lemma WrongOrder(c: Crypto, log: seq<Envelope>)
    requires HonestRun(c.H, log, GENESIS) && |log| == 2 && CleanLog(log)
    ensures var node := NodeStep(c, NodeStep(c, FRESH_NODE, Topic.COMMITTED, log[1]), Topic.COMMITTED, log[0]);
            HashFailure(c.H, log, GENESIS) || node.v.stats.chainBroken == 1
  {
    assert HonestAt(c.H, log, GENESIS, 1);
    OneDelivery(c, FRESH, log[1]);
    OneDelivery(c, Verify(c, FRESH, log[1]), log[0]);
    NextOnly(c, log, GENESIS, 1, 0);
  }

  lemma PollLaterFirst(cfg: Settings, s: Pipe, a: Envelope, b: Envelope)
    requires TwoSingles(s.committed, a, b)
    ensures var run := Then(cfg, Then(cfg, Some(s), Poll(Topic.COMMITTED, 1)), Poll(Topic.COMMITTED, 0));
            && run.Some? && run.value.log == s.log
            && run.value.node
               == NodeStep(cfg.crypto, NodeStep(cfg.crypto, s.node, Topic.COMMITTED, b), Topic.COMMITTED, a)
  {
  }

  lemma SendBoth(cfg: Settings, id: string, c: Committed, id': string, c': Committed)
    requires SameHash(cfg) && !cfg.keyed && |c.binding| == HEX_WIDTH && |c'.binding| == HEX_WIDTH
    ensures var sent := Send(cfg, Send(cfg, Some(Start(None, 2)), id, c, 0), id', c', 1);
            && sent.Some? && |sent.value.log| == 2 && HonestRun(cfg.crypto.H, sent.value.log, GENESIS)
            && TwoSingles(sent.value.committed, sent.value.log[0], sent.value.log[1])
            && sent.value.node == FRESH_NODE && CleanLog(sent.value.log)
  {
    var s0 := Start(None, 2);
    SendEffect(cfg, s0, id, c, 0);
    var s1 := Send(cfg, Some(s0), id, c, 0).value;
    SendEffect(cfg, s1, id', c', 1);
    var e, e' := Export(NextRecord(cfg, s0, id, c)), Export(NextRecord(cfg, s1, id', c'));
    TwoQueues(s0.committed, e, e');
    assert s1.log == [e];
  }

  predicate TwoSingles(q: seq<seq<Envelope>>, a: Envelope, b: Envelope) {
    |q| == 2 && q[0] == [a] && q[1] == [b]
  }

  lemma TwoQueues(q: seq<seq<Envelope>>, a: Envelope, b: Envelope)
    requires |q| == 2 && q[0] == [] && q[1] == []
    ensures var first := q[0 := q[0] + [a]];
            TwoSingles(first[1 := first[1] + [b]], a, b)
  {
  }
}
