/** The prover's commitment store: an append-only chain behind a bounded hot
    ring keyed by transaction id in insertion order. */
module Store {
  import opened Wrappers
  import opened Records
  import opened ChainWalk
  import opened Sorting

  /** The hash, the signing function on payloads, and the ring bound. */
  datatype Config = Config(H: Hash, sign: string -> string, ringSize: nat)

  /** What the lattice engine and the clock return for one transaction. */
  datatype Committed = Committed(commitment: string, binding: string, lwe: map<string, int>, ts: int)

  type Counts = map<Status, int>

  const NO_COUNTS: Counts := map[VERIFIED := 0, QUARANTINED := 0, REJECTED := 0, PENDING := 0]

  datatype State = State(hot: seq<Record>, seq_: nat, head: string, counts: Counts, total: nat)

  // ---- the ordered map ----

  function IndexOf(hot: seq<Record>, id: string): (r: Option<nat>)
    ensures r.Some? ==> r.value < |hot| && hot[r.value].txn == id
    ensures r.None? <==> forall i :: 0 <= i < |hot| ==> hot[i].txn != id
  {
    if hot == [] then None
    else if hot[|hot| - 1].txn == id then Some(|hot| - 1)
    else IndexOf(hot[..|hot| - 1], id)
  }

  // assignment to an existing key keeps its old position
  function Put(hot: seq<Record>, r: Record): seq<Record> {
    var at := IndexOf(hot, r.txn);
    if at.Some? then hot[at.value := r] else hot + [r]
  }

  function CountOf(counts: Counts, s: Status): int {
    if s in counts then counts[s] else 0
  }

  function Bump(counts: Counts, s: Status): Counts {
    counts[s := (if s in counts then counts[s] else 0) + 1]
  }

  function Drop(counts: Counts, s: Status): Counts {
    var n := (if s in counts then counts[s] else 1) - 1;
    counts[s := if n < 0 then 0 else n]
  }

  /** Leaving a status never makes its counter negative, whatever it was before. */
  lemma DropStaysCounting(counts: Counts, s: Status)
    ensures CountOf(Drop(counts, s), s) >= 0
    ensures CountOf(counts, s) >= 1 ==> CountOf(Drop(counts, s), s) == CountOf(counts, s) - 1
    ensures forall other :: other != s ==> CountOf(Drop(counts, s), other) == CountOf(counts, other)
  {
  }

  // ---- the operations as state transitions ----

  function NewRecord(cfg: Config, st: State, id: string, c: Committed, status: Status): Record {
    var chain := ComputeChainHash(cfg.H, st.head, c.binding, id, c.ts);
    Record(id, c.commitment, c.binding, c.lwe, c.ts, st.seq_ + 1, st.head, chain,
           cfg.sign(SigningPayload(id, c.binding, c.ts, chain)), status)
  }

  function StatusFor(score: real, threshold: real): Status {
    if score >= threshold then QUARANTINED else VERIFIED
  }

  function AddStep(cfg: Config, st: State, id: string, c: Committed, status: Status): State {
    var r := NewRecord(cfg, st, id, c, status);
    State(LastN(Put(st.hot, r), cfg.ringSize), st.seq_ + 1, r.chain, Bump(st.counts, status), st.total + 1)
  }

  function SetStatusStep(st: State, id: string, status: Status): State {
    var at := IndexOf(st.hot, id);
    if at.None? then st else
      var rec := st.hot[at.value];
      st.(hot := st.hot[at.value := rec.(status := status)], counts := Bump(Drop(st.counts, rec.status), status))
  }

  // how many of n records the cut [:limit] keeps; a negative limit counts from the end
  function CutLength(n: nat, limit: int): (k: nat)
    ensures k <= n
  {
    if limit >= n then n else if limit >= 0 then limit else if n + limit > 0 then n + limit else 0
  }

  /** A negative limit leaves out that many of the oldest records, a limit that is
      not negative keeps at most that many of the newest. */
  lemma CutKeepsNewest(hot: seq<Record>, limit: int)
    ensures var window := AuditWindow(hot, limit);
            && window <= ExportAll(NewestFirst(hot))
            && (limit >= 0 ==> |window| <= limit && (|window| < limit ==> |window| == |hot|))
            && (limit < 0 ==> (|window| == |hot| - -limit || (|window| == 0 && |hot| <= -limit)))
  {
  }

  // newest first, cut at limit
  function NewestFirst(hot: seq<Record>): (r: seq<Record>)
    ensures |r| == |hot|
  {
    SortBy(hot, (r: Record) => -(r.seq_ as int))
  }

  function AuditWindow(hot: seq<Record>, limit: int): seq<Envelope> {
    var recs := NewestFirst(hot);
    ExportAll(recs[..CutLength(|recs|, limit)])
  }

  class CommitmentStore {
    const cfg: Config
    var hot: seq<Record>
    var seq_: nat
    var head: string
    var counts: Counts
    var total: nat

    function Current(): State
      reads this
    {
      State(hot, seq_, head, counts, total)
    }

    /** Start from genesis, or resume behind a persisted head. */
    constructor (cfg: Config, persisted: Option<(nat, string)>)
      ensures this.cfg == cfg && Current() == Resumed(persisted)
    {
      this.cfg := cfg;
      hot := [];
      seq_ := if persisted.Some? then persisted.value.0 else 0;
      head := if persisted.Some? then persisted.value.1 else GENESIS;
      counts := NO_COUNTS;
      total := 0;
    }

    // drop the oldest entries above the ring bound
    method EvictOldest()
      modifies this`hot
      ensures hot == LastN(old(hot), cfg.ringSize)
    {
      while |hot| > cfg.ringSize
        invariant |hot| <= |old(hot)| && hot == old(hot)[|old(hot)| - |hot|..]
        invariant |hot| < |old(hot)| ==> |hot| >= cfg.ringSize
      {
        hot := hot[1..];
      }
    }

    // one record entered a status
    method CountIn(status: Status)
      modifies this`counts
      ensures counts == Bump(old(counts), status)
      ensures forall s :: CountOf(counts, s) == CountOf(old(counts), s) + if s == status then 1 else 0
      ensures AllKeys(old(counts)) ==> AllKeys(counts) && SumCounts(counts) == SumCounts(old(counts)) + 1
    {
      if AllKeys(counts) { SumUpdate(counts, status, counts[status] + 1); }
      counts := counts[status := (if status in counts then counts[status] else 0) + 1];
    }

    // extend the chain by one signed record
    method Link(id: string, c: Committed, status: Status) returns (r: Record)
      modifies this`head, this`seq_
      ensures r == NewRecord(cfg, old(Current()), id, c, status)
      ensures head == r.chain && seq_ == r.seq_
    {
      var prev := head;
      var n := seq_ + 1;
      var chain := ComputeChainHash(cfg.H, prev, c.binding, id, c.ts);
      head := chain;
      seq_ := n;
      var signature := cfg.sign(SigningPayload(id, c.binding, c.ts, chain));
      r := Record(id, c.commitment, c.binding, c.lwe, c.ts, n, prev, chain, signature, status);
    }

    /** Chain, sign and keep one transaction.  The amount is committed before
        anything changes, so a rejected amount leaves the store as it was. */
    method Add(id: string, committed: Result<Committed>, score: real, threshold: real) returns (r: Result<Record>)
      modifies this
      ensures r.Ok? <==> committed.Ok?
      ensures committed.Err? ==> Current() == old(Current())
      ensures committed.Ok? ==>
                && Current() == AddStep(cfg, old(Current()), id, committed.value, StatusFor(score, threshold))
                && r.value == NewRecord(cfg, old(Current()), id, committed.value, StatusFor(score, threshold))
                && (r.value.status == QUARANTINED <==> score >= threshold)
                && (r.value.status == VERIFIED <==> score < threshold)
                && total == old(total) + 1
                && forall s :: CountOf(counts, s) == CountOf(old(counts), s) + if s == r.value.status then 1 else 0
    {
      if committed.Err? {
        return Err(committed.error);
      }
      var status := if score >= threshold then QUARANTINED else VERIFIED;
      var record := Link(id, committed.value, status);
      hot := Put(hot, record);
      EvictOldest();
      total := total + 1;
      CountIn(status);
      r := Ok(record);
    }

    // one record left a status, clamped at zero, and entered another
    method Recount(before: Status, after: Status)
      modifies this`counts
      ensures counts == Bump(Drop(old(counts), before), after)
      ensures AllKeys(old(counts)) && old(counts)[before] >= 1 ==>
                AllKeys(counts) && SumCounts(counts) == SumCounts(old(counts))
    {
      if AllKeys(counts) && counts[before] >= 1 { MoveUnit(counts, before, after); }
      var n := (if before in counts then counts[before] else 1) - 1;
      counts := counts[before := if n < 0 then 0 else n];
      CountIn(after);
    }

    /** persisted tells whether the durable tier took the change. */
    method SetStatus(id: string, status: Status, persisted: bool) returns (found: bool)
      modifies this
      ensures Current() == SetStatusStep(old(Current()), id, status)
      ensures found <==> persisted || IndexOf(old(hot), id).Some?
    {
      var at := IndexOf(hot, id);
      if at.Some? {
        var rec := hot[at.value];
        hot := hot[at.value := rec.(status := status)];
        Recount(rec.status, status);
      }
      found := at.Some? || persisted;
    }

    /** Newest-first export; a non-empty durable answer takes precedence. */
    method AuditExport(limit: int, durable: seq<Envelope>) returns (r: seq<Envelope>)
      ensures r == if durable != [] then durable else AuditWindow(hot, limit)
    {
      if durable != [] {
        return durable;
      }
      var recs := NewestFirst(hot);
      r := ExportAll(recs[..CutLength(|recs|, limit)]);
    }

    method VerifyChain(limit: int, durable: seq<Envelope>) returns (r: ChainReport)
      ensures var window := if durable != [] then durable else AuditWindow(hot, limit);
              && r.checked == |window| && (r.intact <==> IntactChain(cfg.H, BySeq(window)))
              && r.breaks <= WalkBreaks(cfg.H, BySeq(window), "CHAIN_HASH_RECOMPUTE_MISMATCH")
              && (window != [] ==>
                    && r.first == BySeq(window)[0].seqNo && r.last == BySeq(window)[|window| - 1].seqNo
                    && r.head == Some(BySeq(window)[|window| - 1].Chain()))
    {
      var window := AuditExport(limit, durable);
      r := WalkChain(cfg.H, window, PROVER_RECOMPUTE);
      WalkCleanIffIntact(cfg.H, BySeq(window), PROVER_RECOMPUTE);
    }
  }

  // ---- whole runs ----

  function Resumed(persisted: Option<(nat, string)>): State {
    if persisted.Some? then State([], persisted.value.0, persisted.value.1, NO_COUNTS, 0)
    else State([], 0, GENESIS, NO_COUNTS, 0)
  }

  datatype Op = Add(id: string, c: Committed, status: Status) | Mark(id: string, status: Status)

  function Apply(cfg: Config, st: State, op: Op): State {
    match op
    case Add(id, c, status) => AddStep(cfg, st, id, c, status)
    case Mark(id, status) => SetStatusStep(st, id, status)
  }

  function Run(cfg: Config, st: State, ops: seq<Op>): State {
    if ops == [] then st else Apply(cfg, Run(cfg, st, ops[..|ops| - 1]), ops[|ops| - 1])
  }

  // every record the run created, as it was created
  function Log(cfg: Config, st: State, ops: seq<Op>): seq<Record> {
    if ops == [] then [] else
      var front := ops[..|ops| - 1];
      match ops[|ops| - 1]
      case Add(id, c, status) => Log(cfg, st, front) + [NewRecord(cfg, Run(cfg, st, front), id, c, status)]
      case Mark(_, _) => Log(cfg, st, front)
  }

  /** One addition, in terms of the score: the record is quarantined exactly when
      its score reaches the threshold, and only that status is counted. */
  lemma ScoreDecides(cfg: Config, st: State, id: string, c: Committed, score: real, threshold: real)
    ensures var status := StatusFor(score, threshold);
            var after := AddStep(cfg, st, id, c, status);
            && (status == QUARANTINED <==> score >= threshold) && (status == VERIFIED <==> score < threshold)
            && NewRecord(cfg, st, id, c, status).status == status
            && CountOf(after.counts, QUARANTINED)
               == CountOf(st.counts, QUARANTINED) + (if score >= threshold then 1 else 0)
            && CountOf(after.counts, VERIFIED)
               == CountOf(st.counts, VERIFIED) + (if score < threshold then 1 else 0)
            && CountOf(after.counts, REJECTED) == CountOf(st.counts, REJECTED)
            && CountOf(after.counts, PENDING) == CountOf(st.counts, PENDING)
  {
  }

  // ---- the ring is a map ----

  ghost predicate DistinctIds(hot: seq<Record>) {
    forall i, j :: 0 <= i < j < |hot| ==> hot[i].txn != hot[j].txn
  }

  // a stored record is found under its id, and nothing else moves
  lemma PutFinds(hot: seq<Record>, r: Record)
    requires DistinctIds(hot)
    ensures DistinctIds(Put(hot, r))
    ensures var at := IndexOf(Put(hot, r), r.txn);
            && at.Some? && Put(hot, r)[at.value] == r
            && forall i :: 0 <= i < |hot| && i != at.value ==> Put(hot, r)[i] == hot[i]
  {
    var put := Put(hot, r);
    var at := IndexOf(hot, r.txn);
    var k := if at.Some? then at.value else |hot|;
    assert put[k] == r;
    var found := IndexOf(put, r.txn);
    assert found.Some? && found.value == k;
  }

  /** A status change reaches exactly the record of that id: its status becomes
      the new one, everything published about it stays, no other record moves. */
  lemma MarkTouchesOne(st: State, id: string, status: Status)
    requires DistinctIds(st.hot)
    ensures var after, at := SetStatusStep(st, id, status), IndexOf(st.hot, id);
            && DistinctIds(after.hot) && |after.hot| == |st.hot|
            && (after.seq_, after.head, after.total) == (st.seq_, st.head, st.total)
            && (at.None? ==> after == st)
            && (at.Some? ==>
                  after.hot[at.value].status == status && Export(after.hot[at.value]) == Export(st.hot[at.value]))
            && forall i :: 0 <= i < |st.hot| && st.hot[i].txn != id ==> after.hot[i] == st.hot[i]
  {
    var after := SetStatusStep(st, id, status);
    assert forall i :: 0 <= i < |st.hot| ==> after.hot[i].txn == st.hot[i].txn;
  }

  lemma LastNDistinct(hot: seq<Record>, n: nat)
    requires DistinctIds(hot)
    ensures DistinctIds(LastN(hot, n))
  {
    var kept := LastN(hot, n);
    var skip := |hot| - |kept|;
    forall i, j | 0 <= i < j < |kept|
      ensures kept[i].txn != kept[j].txn
    {
      assert hot[i + skip].txn != hot[j + skip].txn;
    }
  }

  /** After any run the ring holds at most one record per id. */
  lemma {:induction false} RingIdsDistinct(cfg: Config, persisted: Option<(nat, string)>, ops: seq<Op>)
    ensures DistinctIds(Run(cfg, Resumed(persisted), ops).hot)
    ensures |Run(cfg, Resumed(persisted), ops).hot| <= cfg.ringSize
  {
    if ops != [] {
      var front := ops[..|ops| - 1];
      var st := Run(cfg, Resumed(persisted), front);
      RingIdsDistinct(cfg, persisted, front);
      match ops[|ops| - 1]
      case Add(id, c, status) =>
        PutFinds(st.hot, NewRecord(cfg, st, id, c, status));
        LastNDistinct(Put(st.hot, NewRecord(cfg, st, id, c, status)), cfg.ringSize);
      case Mark(id, status) => MarkTouchesOne(st, id, status);
    }
  }

  // ---- conservation ----

  function Statuses(hot: seq<Record>): (r: seq<Status>)
    ensures |r| == |hot|
  {
    seq(|hot|, i requires 0 <= i < |hot| => hot[i].status)
  }

  ghost predicate AllKeys(counts: Counts) {
    forall s: Status :: s in counts
  }

  function SumCounts(counts: Counts): int
    requires AllKeys(counts)
  {
    counts[VERIFIED] + counts[QUARANTINED] + counts[REJECTED] + counts[PENDING]
  }

  /** The counters add up to the total, and each covers the hot records that
      carry its status. */
  ghost predicate Conserved(st: State) {
    AllKeys(st.counts) && SumCounts(st.counts) == st.total && Covered(st.hot, st.counts)
  }

  ghost predicate Covered(hot: seq<Record>, counts: Counts) {
    AllKeys(counts) && forall s :: multiset(Statuses(hot))[s] <= counts[s]
  }

  lemma SumUpdate(counts: Counts, s: Status, n: int)
    requires AllKeys(counts)
    ensures AllKeys(counts[s := n]) && SumCounts(counts[s := n]) == SumCounts(counts) - counts[s] + n
  {
    match s
    case VERIFIED =>
    case QUARANTINED =>
    case REJECTED =>
    case PENDING =>
  }

  lemma PutStatuses(hot: seq<Record>, r: Record, s: Status)
    ensures multiset(Statuses(Put(hot, r)))[s] <= multiset(Statuses(hot))[s] + (if s == r.status then 1 else 0)
  {
    var at := IndexOf(hot, r.txn);
    if at.Some? {
      assert Statuses(Put(hot, r)) == Statuses(hot)[at.value := r.status];
    } else {
      assert Statuses(Put(hot, r)) == Statuses(hot) + [r.status];
    }
  }

  lemma LastNStatuses(hot: seq<Record>, n: nat, s: Status)
    ensures multiset(Statuses(LastN(hot, n)))[s] <= multiset(Statuses(hot))[s]
  {
    if |hot| > n {
      var k := |hot| - n;
      assert Statuses(hot) == Statuses(hot)[..k] + Statuses(hot)[k..];
      assert Statuses(LastN(hot, n)) == Statuses(hot)[k..];
    }
  }

  lemma AddConserves(cfg: Config, st: State, id: string, c: Committed, status: Status)
    requires Conserved(st)
    ensures Conserved(AddStep(cfg, st, id, c, status))
  {
    var r := NewRecord(cfg, st, id, c, status);
    SumUpdate(st.counts, status, st.counts[status] + 1);
    AddCovered(st.hot, r, st.counts, cfg.ringSize);
  }

  lemma AddCovered(hot: seq<Record>, r: Record, counts: Counts, n: nat)
    requires Covered(hot, counts)
    ensures Covered(LastN(Put(hot, r), n), Bump(counts, r.status))
  {
    var kept := LastN(Put(hot, r), n);
    forall s
      ensures multiset(Statuses(kept))[s] <= Bump(counts, r.status)[s]
    {
      PutStatuses(hot, r, s);
      LastNStatuses(Put(hot, r), n, s);
    }
  }

  /** A hot record's counter is at least one, so the clamp at zero in the status
      change never alters a value. */
  lemma ClampNeverActs(st: State, id: string)
    requires Conserved(st) && IndexOf(st.hot, id).Some?
    ensures var old_ := st.hot[IndexOf(st.hot, id).value].status;
            old_ in st.counts && st.counts[old_] >= 1 && Drop(st.counts, old_) == st.counts[old_ := st.counts[old_] - 1]
  {
    var at := IndexOf(st.hot, id).value;
    assert Statuses(st.hot)[at] == st.hot[at].status;
    assert st.hot[at].status in multiset(Statuses(st.hot));
  }

  lemma MarkConserves(st: State, id: string, status: Status)
    requires Conserved(st)
    ensures Conserved(SetStatusStep(st, id, status))
  {
    var at := IndexOf(st.hot, id);
    if at.Some? {
      var before := st.hot[at.value].status;
      ClampNeverActs(st, id);
      MoveUnit(st.counts, before, status);
      MarkStatuses(st.hot, at.value, status, st.counts);
    }
  }

  // one unit from counter before to counter after
  function Moved(counts: Counts, before: Status, after: Status): Counts
    requires before in counts && after in counts
  {
    var dropped := counts[before := counts[before] - 1];
    dropped[after := dropped[after] + 1]
  }

  lemma MoveUnit(counts: Counts, before: Status, after: Status)
    requires AllKeys(counts) && counts[before] >= 1
    ensures Bump(Drop(counts, before), after) == Moved(counts, before, after)
    ensures AllKeys(Moved(counts, before, after)) && SumCounts(Moved(counts, before, after)) == SumCounts(counts)
  {
    SumUpdate(counts, before, counts[before] - 1);
    SumUpdate(counts[before := counts[before] - 1], after, counts[before := counts[before] - 1][after] + 1);
  }

  // moving one record between statuses moves one unit between counters
  lemma MarkStatuses(hot: seq<Record>, at: nat, status: Status, counts: Counts)
    requires at < |hot| && Covered(hot, counts)
    ensures Covered(hot[at := hot[at].(status := status)], Moved(counts, hot[at].status, status))
  {
    var before := hot[at].status;
    assert Statuses(hot[at := hot[at].(status := status)]) == Statuses(hot)[at := status];
    assert Statuses(hot)[at] == before;
  }

  /** In every reachable state - any ids, any evictions, any status changes -
      the four counters sum to the total. */
  lemma {:induction false} CountsConserved(cfg: Config, persisted: Option<(nat, string)>, ops: seq<Op>)
    ensures Conserved(Run(cfg, Resumed(persisted), ops))
  {
    if ops == [] {
      assert Statuses([]) == [];
      forall s: Status
        ensures s in NO_COUNTS
      {
        match s case VERIFIED => case QUARANTINED => case REJECTED => case PENDING =>
      }
    } else {
      var st := Run(cfg, Resumed(persisted), ops[..|ops| - 1]);
      CountsConserved(cfg, persisted, ops[..|ops| - 1]);
      match ops[|ops| - 1]
      case Add(id, c, status) => AddConserves(cfg, st, id, c, status);
      case Mark(id, status) => MarkConserves(st, id, status);
    }
  }
}
