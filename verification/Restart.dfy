/** The durable write path in its atomic steps, with restarts between them. */
module Restart {
  import opened Wrappers
  import opened Records
  import opened ChainWalk
  import opened HonestRuns
  import opened Store
  import opened RingRuns

  /** Where the single writer stands in its current addition. */
  datatype Phase = Idle | Headed(record: Record) | Written(record: Record)

  /** Head in memory, phase, and the durable tier: its rows in write order and
      its head row. */
  datatype Sys = Sys(seq_: nat, head: string, phase: Phase, rows: seq<Record>, saved: Option<(nat, string)>)

  datatype Step = Begin(id: string, c: Committed, status: Status)
                | Write(ok: bool)
                | Save(ok: bool)
                | Reboot(loaded: bool)

  const START := Sys(0, GENESIS, Idle, [], None)

  // a restarted store takes the saved head, or genesis if none can be loaded
  function AfterBoot(rows: seq<Record>, saved: Option<(nat, string)>, loaded: bool): Sys {
    var st := Resumed(if loaded then saved else None);
    Sys(st.seq_, st.head, Idle, rows, saved)
  }

  function Take(cfg: Config, s: Sys, step: Step): Option<Sys> {
    match step
    case Begin(id, c, status) =>
      if !s.phase.Idle? then None else
        var r := NewRecord(cfg, State([], s.seq_, s.head, NO_COUNTS, 0), id, c, status);
        Some(s.(seq_ := r.seq_, head := r.chain, phase := Headed(r)))
    case Write(ok) =>
      if !s.phase.Headed? then None
      else Some(s.(rows := if ok then s.rows + [s.phase.record] else s.rows, phase := Written(s.phase.record)))
    case Save(ok) =>
      if !s.phase.Written? then None
      else Some(s.(saved := if ok then Some((s.phase.record.seq_, s.phase.record.chain)) else s.saved, phase := Idle))
    case Reboot(loaded) => Some(AfterBoot(s.rows, s.saved, loaded))
  }

  // the state after a sequence of steps, None if one of them was not enabled
  function Exec(cfg: Config, s: Sys, steps: seq<Step>): Option<Sys> {
    if steps == [] then Some(s) else
      var before := Exec(cfg, s, steps[..|steps| - 1]);
      if before.None? then None else Take(cfg, before.value, steps[|steps| - 1])
  }

  // ---- the durable head never falls behind by more than one ----

  ghost predicate SavesAndLoadsSucceed(steps: seq<Step>) {
    forall i :: 0 <= i < |steps| ==> steps[i] != Save(false) && steps[i] != Reboot(false)
  }

  // the chain position a reboot would resume at
  function SavedHead(s: Sys): (nat, string) {
    (Resumed(s.saved).seq_, Resumed(s.saved).head)
  }

  // the chain position below the record in flight, if there is one
  function Base(s: Sys): (int, string) {
    match s.phase
    case Idle => (s.seq_, s.head)
    case Headed(r) => (r.seq_ - 1, r.prev)
    case Written(r) => (r.seq_ - 1, r.prev)
  }

  /** In memory is the saved head itself, or exactly one record on top of it. */
  ghost predicate HeadInStep(s: Sys) {
    && Base(s) == (SavedHead(s).0 as int, SavedHead(s).1)
    && (!s.phase.Idle? ==> (s.seq_, s.head) == (s.phase.record.seq_, s.phase.record.chain))
  }

  lemma {:induction false} DurableHeadInStep(cfg: Config, steps: seq<Step>)
    requires SavesAndLoadsSucceed(steps) && Exec(cfg, START, steps).Some?
    ensures HeadInStep(Exec(cfg, START, steps).value)
  {
    if steps != [] {
      var front, last := steps[..|steps| - 1], steps[|steps| - 1];
      assert forall i :: 0 <= i < |front| ==> front[i] == steps[i];
      DurableHeadInStep(cfg, front);
      assert last == steps[|steps| - 1];
    }
  }

  /** How many records were begun since the head was last saved or loaded. */
  function Lag(steps: seq<Step>): nat {
    if steps == [] then 0 else
      var before := Lag(steps[..|steps| - 1]);
      match steps[|steps| - 1]
      case Begin(_, _, _) => before + 1
      case Write(_) => before
      case Save(ok) => if ok then 0 else before
      case Reboot(_) => 0
  }

  // memory is this far ahead of the durable head, and level with it at zero
  ghost predicate Ahead(s: Sys, lag: nat) {
    && s.seq_ == SavedHead(s).0 + lag && (lag == 0 ==> s.head == SavedHead(s).1)
    && match s.phase
       case Idle => true
       case Headed(r) => (s.seq_, s.head) == (r.seq_, r.chain) && lag > 0
       case Written(r) => (s.seq_, s.head) == (r.seq_, r.chain) && lag > 0
  }

  /** With saves that may fail, the durable head lags exactly by the records
      begun since it was last saved or loaded; the next successful save or
      reboot closes the gap. */
  lemma {:induction false} LagIsExact(cfg: Config, steps: seq<Step>)
    requires Exec(cfg, START, steps).Some? && forall i :: 0 <= i < |steps| ==> steps[i] != Reboot(false)
    ensures Ahead(Exec(cfg, START, steps).value, Lag(steps))
  {
    if steps != [] {
      var front, last := steps[..|steps| - 1], steps[|steps| - 1];
      assert forall i :: 0 <= i < |front| ==> front[i] == steps[i];
      LagIsExact(cfg, front);
      assert last == steps[|steps| - 1];
    }
  }

  // ---- when the durable rows form one chain ----

  // the rows so far are the chain 1..n behind genesis
  ghost predicate OneChain(H: Hash, rows: seq<Record>) {
    HonestRun(H, ExportAll(rows), GENESIS) && forall i :: 0 <= i < |rows| ==> rows[i].seq_ == i + 1
  }

  // the chain position behind the rows
  function RowsHead(rows: seq<Record>): (nat, string) {
    (|rows|, HeadAt(ExportAll(rows), GENESIS, |rows|))
  }

  lemma AppendRow(H: Hash, rows: seq<Record>, r: Record)
    requires OneChain(H, rows) && r.seq_ == |rows| + 1 && r.prev == RowsHead(rows).1
    requires r.chain == ComputeChainHash(H, r.prev, r.binding, r.txn, r.ts) && |r.binding| == HEX_WIDTH
    ensures OneChain(H, rows + [r]) && RowsHead(rows + [r]) == (r.seq_, r.chain)
  {
    ExtendHonest(H, ExportAll(rows), GENESIS, Export(r));
    assert ExportAll(rows + [r]) == ExportAll(rows) + [Export(r)];
  }

  // the chain head behind the first i rows
  function Position(rows: seq<Record>, i: nat): string
    requires i <= |rows|
  {
    HeadAt(ExportAll(rows), GENESIS, i)
  }

  /** What the steps alone tell: the number of the head in memory, of the rows
      and of the saved head, and whether the two heads stem from durable rows -
      a head whose own row failed to be written does not. */
  datatype Tally = Tally(mem: nat, rows: nat, saved: nat, memOn: bool, savedOn: bool)

  function CountStep(t: Tally, step: Step): Tally {
    match step
    case Begin(_, _, _) => t.(mem := t.mem + 1)
    case Write(ok) => if ok then t.(rows := t.rows + 1) else t.(memOn := false)
    case Save(ok) => if ok then t.(saved := t.mem, savedOn := t.memOn) else t
    case Reboot(loaded) => if loaded then t.(mem := t.saved, memOn := t.savedOn) else t.(mem := 0, memOn := true)
  }

  function Count(steps: seq<Step>): Tally {
    if steps == [] then Tally(0, 0, 0, true, true)
    else CountStep(Count(steps[..|steps| - 1]), steps[|steps| - 1])
  }

  // the next row written would carry the next number and follow a durable row
  predicate Fits(t: Tally) {
    t.memOn && t.mem == t.rows + 1
  }

  /** Every row was written where it fits. */
  predicate OnTop(steps: seq<Step>) {
    steps == [] ||
    (var front := steps[..|steps| - 1];
     OnTop(front) && (steps[|steps| - 1] == Write(true) ==> Fits(Count(front))))
  }

  // the numbers of the state are those of the tally, in every run
  ghost predicate Counted(s: Sys, t: Tally) {
    && s.seq_ == t.mem && |s.rows| == t.rows && SavedHead(s).0 == t.saved
    && match s.phase
       case Idle => true
       case Headed(r) => r.seq_ == t.mem > 0 && s.head == r.chain
       case Written(r) => r.seq_ == t.mem > 0 && s.head == r.chain
  }

  // the record in flight is a link of digest width
  ghost predicate InFlight(H: Hash, s: Sys) {
    s.phase.Headed? ==>
      var r := s.phase.record;
      r.chain == ComputeChainHash(H, r.prev, r.binding, r.txn, r.ts) && |r.binding| == HEX_WIDTH
  }

  // the heads that stem from rows sit at their numbers in the chain
  ghost predicate Anchored(s: Sys, t: Tally) {
    && (t.savedOn ==> t.saved <= |s.rows| && SavedHead(s).1 == Position(s.rows, t.saved))
    && (t.memOn ==>
          match s.phase
          case Headed(r) => 0 < t.mem <= |s.rows| + 1 && r.prev == Position(s.rows, t.mem - 1)
          case _ => t.mem <= |s.rows| && s.head == Position(s.rows, t.mem))
  }

  ghost predicate DigestSteps(steps: seq<Step>) {
    forall i :: 0 <= i < |steps| && steps[i].Begin? ==> |steps[i].c.binding| == HEX_WIDTH
  }

  lemma {:induction false} RunCounted(cfg: Config, steps: seq<Step>)
    requires Exec(cfg, START, steps).Some? && DigestSteps(steps)
    ensures Counted(Exec(cfg, START, steps).value, Count(steps)) && InFlight(cfg.H, Exec(cfg, START, steps).value)
  {
    if steps != [] {
      var front, last := steps[..|steps| - 1], steps[|steps| - 1];
      assert forall i :: 0 <= i < |front| ==> front[i] == steps[i];
      assert last == steps[|steps| - 1];
      RunCounted(cfg, front);
    }
  }

  lemma WriteAnchors(H: Hash, s: Sys, t: Tally, r: Record)
    requires OneChain(H, s.rows) && Counted(s, t) && InFlight(H, s) && Anchored(s, t) && s.phase == Headed(r) && Fits(t)
    ensures var after := s.(rows := s.rows + [r], phase := Written(r));
            OneChain(H, after.rows) && Anchored(after, t.(rows := t.rows + 1))
  {
    var after := s.(rows := s.rows + [r], phase := Written(r));
    AppendRow(H, s.rows, r);
    assert ExportAll(after.rows) == ExportAll(s.rows) + [Export(r)];
  }

  lemma StepAnchors(cfg: Config, s: Sys, step: Step, t: Tally)
    requires OneChain(cfg.H, s.rows) && Counted(s, t) && InFlight(cfg.H, s) && Anchored(s, t)
    requires Take(cfg, s, step).Some? && step != Write(true)
    ensures Anchored(Take(cfg, s, step).value, CountStep(t, step)) && Take(cfg, s, step).value.rows == s.rows
  {
  }

  lemma {:induction false} OnTopSuffices(cfg: Config, steps: seq<Step>)
    requires Exec(cfg, START, steps).Some? && HexDigests(cfg.H) && DigestSteps(steps) && OnTop(steps)
    ensures OneChain(cfg.H, Exec(cfg, START, steps).value.rows) && Anchored(Exec(cfg, START, steps).value, Count(steps))
  {
    if steps == [] {
      assert ExportAll([]) == [];
    } else {
      var front, last := steps[..|steps| - 1], steps[|steps| - 1];
      assert forall i :: 0 <= i < |front| ==> front[i] == steps[i];
      RunCounted(cfg, front);
      OnTopSuffices(cfg, front);
      var s := Exec(cfg, START, front).value;
      if last == Write(true) {
        WriteAnchors(cfg.H, s, Count(front), s.phase.record);
      } else {
        StepAnchors(cfg, s, last, Count(front));
      }
    }
  }

  /** At step k a row is written behind a head that stems from no row, and that
      head has the chain hash of the last row. */
  ghost predicate AliasAt(cfg: Config, steps: seq<Step>, k: nat) {
    && k < |steps| && steps[k] == Write(true) && !Count(steps[..k]).memOn
    && var before := Exec(cfg, START, steps[..k]);
       before.Some? && before.value.phase.Headed? && before.value.phase.record.prev == RowsHead(before.value.rows).1
  }

  ghost predicate Aliased(cfg: Config, steps: seq<Step>) {
    exists k: nat :: AliasAt(cfg, steps, k)
  }

  lemma ChainPrefix(H: Hash, rows: seq<Record>, r: Record)
    requires OneChain(H, rows + [r])
    ensures OneChain(H, rows) && r.seq_ == |rows| + 1 && r.prev == RowsHead(rows).1
  {
    var all, es := ExportAll(rows + [r]), ExportAll(rows);
    assert all == es + [Export(r)];
    assert (rows + [r])[|rows|] == r;
    assert HonestAt(H, all, GENESIS, |rows|);
    forall i | 0 <= i < |es| ensures HonestAt(H, es, GENESIS, i) { assert HonestAt(H, all, GENESIS, i); }
    forall i | 0 < i < |es| ensures NoGapAt(es, i) { assert NoGapAt(all, i); }
    forall i | 0 <= i < |rows| ensures rows[i].seq_ == i + 1 { assert (rows + [r])[i] == rows[i]; }
  }

  lemma LongerAliased(cfg: Config, steps: seq<Step>)
    requires steps != [] && Aliased(cfg, steps[..|steps| - 1])
    ensures Aliased(cfg, steps)
  {
    var front := steps[..|steps| - 1];
    var k: nat :| AliasAt(cfg, front, k);
    assert front[..k] == steps[..k];
    assert AliasAt(cfg, steps, k);
  }

  lemma {:induction false} OnTopNeeded(cfg: Config, steps: seq<Step>)
    requires Exec(cfg, START, steps).Some? && DigestSteps(steps) && OneChain(cfg.H, Exec(cfg, START, steps).value.rows)
    ensures OnTop(steps) || Aliased(cfg, steps)
  {
    if steps != [] {
      var front, last := steps[..|steps| - 1], steps[|steps| - 1];
      assert forall i :: 0 <= i < |front| ==> front[i] == steps[i];
      var s := Exec(cfg, START, front).value;
      RunCounted(cfg, front);
      if last == Write(true) { ChainPrefix(cfg.H, s.rows, s.phase.record); }
      OnTopNeeded(cfg, front);
      if Aliased(cfg, front) {
        LongerAliased(cfg, steps);
      } else if last == Write(true) && !Count(front).memOn {
        assert AliasAt(cfg, steps, |front|);
      }
    }
  }

  ghost predicate WritesSucceed(steps: seq<Step>) {
    forall i :: 0 <= i < |steps| ==> steps[i] != Write(false)
  }

  lemma {:induction false} AllHeadsStem(steps: seq<Step>)
    requires WritesSucceed(steps)
    ensures Count(steps).memOn && Count(steps).savedOn
  {
    if steps != [] {
      var front := steps[..|steps| - 1];
      assert forall i :: 0 <= i < |front| ==> front[i] == steps[i];
      AllHeadsStem(front);
      assert steps[|steps| - 1] != Write(false);
    }
  }

  lemma NoAliases(cfg: Config, steps: seq<Step>)
    requires WritesSucceed(steps)
    ensures !Aliased(cfg, steps)
  {
    forall k: nat
      ensures !AliasAt(cfg, steps, k)
    {
      if k < |steps| {
        assert forall i :: 0 <= i < k ==> steps[..k][i] == steps[i];
        AllHeadsStem(steps[..k]);
      }
    }
  }

  /** Over every run - with any failed writes, saves and loads, and restarts
      anywhere - the durable rows of all incarnations are one chain 1..n exactly
      when every row was written where it fits; only the "not otherwise" half
      needs the heads of unwritten records to differ from those of rows, and
      without failed writes there are none. */
  lemma RowsFormOneChain(cfg: Config, steps: seq<Step>)
    requires Exec(cfg, START, steps).Some? && HexDigests(cfg.H) && DigestSteps(steps)
    ensures OnTop(steps) ==> OneChain(cfg.H, Exec(cfg, START, steps).value.rows)
    ensures OneChain(cfg.H, Exec(cfg, START, steps).value.rows) ==> OnTop(steps) || Aliased(cfg, steps)
    ensures WritesSucceed(steps) ==> (OneChain(cfg.H, Exec(cfg, START, steps).value.rows) <==> OnTop(steps))
  {
    if OnTop(steps) { OnTopSuffices(cfg, steps); }
    if OneChain(cfg.H, Exec(cfg, START, steps).value.rows) { OnTopNeeded(cfg, steps); }
    if WritesSucceed(steps) { NoAliases(cfg, steps); }
  }

  // ---- the same in terms of restarts ----

  // rows written since the head was last saved or loaded
  function Unsaved(steps: seq<Step>): nat {
    if steps == [] then 0 else
      var before := Unsaved(steps[..|steps| - 1]);
      match steps[|steps| - 1]
      case Begin(_, _, _) => before
      case Write(ok) => if ok then before + 1 else before
      case Save(ok) => if ok then 0 else before
      case Reboot(_) => 0
  }

  // some restart was taken while rows were unsaved
  predicate LostRows(steps: seq<Step>) {
    steps != [] &&
    (var front := steps[..|steps| - 1];
     LostRows(front) || (steps[|steps| - 1].Reboot? && Unsaved(front) > 0))
  }

  ghost predicate NoWriteAfterLoss(steps: seq<Step>) {
    forall i :: 0 <= i < |steps| && LostRows(steps[..i]) ==> !steps[i].Write?
  }

  ghost predicate WritesAndLoadsSucceed(steps: seq<Step>) {
    forall i :: 0 <= i < |steps| ==> steps[i] != Write(false) && steps[i] != Reboot(false)
  }

  // while every row fits: level with the rows, or behind them since a loss
  ghost predicate Level(s: Sys, t: Tally, unsaved: nat, lost: bool) {
    var base := t.mem - if s.phase.Headed? then 1 else 0;
    if lost then base <= t.saved < t.rows && !s.phase.Written?
    else base == t.rows == t.saved + unsaved
  }

  lemma {:induction false} LevelHolds(cfg: Config, steps: seq<Step>)
    requires Exec(cfg, START, steps).Some? && DigestSteps(steps) && WritesAndLoadsSucceed(steps) && OnTop(steps)
    ensures Level(Exec(cfg, START, steps).value, Count(steps), Unsaved(steps), LostRows(steps))
  {
    if steps != [] {
      var front, last := steps[..|steps| - 1], steps[|steps| - 1];
      assert forall i :: 0 <= i < |front| ==> front[i] == steps[i];
      assert last == steps[|steps| - 1];
      LevelHolds(cfg, front);
    }
  }

  lemma ShorterNoLoss(steps: seq<Step>)
    requires steps != []
    ensures var front, last := steps[..|steps| - 1], steps[|steps| - 1];
            NoWriteAfterLoss(steps) <==> NoWriteAfterLoss(front) && (LostRows(front) ==> !last.Write?)
  {
    var front := steps[..|steps| - 1];
    forall i | 0 <= i < |front| ensures front[..i] == steps[..i] && front[i] == steps[i] { }
    if NoWriteAfterLoss(front) && (LostRows(front) ==> !steps[|steps| - 1].Write?) {
      forall i | 0 <= i < |steps| && LostRows(steps[..i])
        ensures !steps[i].Write?
      {
        if i < |front| { assert LostRows(front[..i]); }
      }
    }
    if NoWriteAfterLoss(steps) {
      forall i | 0 <= i < |front| && LostRows(front[..i]) ensures !front[i].Write? { assert LostRows(steps[..i]); }
    }
  }

  /** If writes and loads succeed, every row fits exactly when no row is written
      after a restart that was taken while rows were unsaved. */
  lemma {:induction false} OnTopIffNothingLost(cfg: Config, steps: seq<Step>)
    requires Exec(cfg, START, steps).Some? && DigestSteps(steps) && WritesAndLoadsSucceed(steps)
    ensures OnTop(steps) <==> NoWriteAfterLoss(steps)
  {
    if steps != [] {
      var front, last := steps[..|steps| - 1], steps[|steps| - 1];
      assert forall i :: 0 <= i < |front| ==> front[i] == steps[i];
      assert last == steps[|steps| - 1];
      OnTopIffNothingLost(cfg, front);
      ShorterNoLoss(steps);
      AllHeadsStem(front);
      if OnTop(front) { LevelHolds(cfg, front); }
    }
  }

  // ---- a clean durable tier ----

  /** Between additions: the durable rows are one chain, and the saved head and
      the head in memory are its end. */
  ghost predicate Clean(H: Hash, s: Sys) {
    OneChain(H, s.rows) && s.phase.Idle? && (s.seq_, s.head) == SavedHead(s) == RowsHead(s.rows)
  }

  // ---- exactly when one addition keeps it ----

  /** How one addition can end: through its save, or cut off by a restart before
      or after its write; write and save may fail. */
  datatype Outcome = Finished(wrote: bool, saved: bool) | CutAfterWrite(wrote: bool) | CutBeforeWrite

  function RowWritten(o: Outcome): bool {
    match o
    case Finished(wrote, _) => wrote
    case CutAfterWrite(wrote) => wrote
    case CutBeforeWrite => false
  }

  // the state after an attempt, step by step
  function AfterAttempt(cfg: Config, s: Sys, id: string, c: Committed, status: Status, o: Outcome): Sys
    requires s.phase.Idle?
  {
    var begun := Take(cfg, s, Begin(id, c, status)).value;
    match o
    case Finished(wrote, saved) => Take(cfg, Take(cfg, begun, Write(wrote)).value, Save(saved)).value
    case CutAfterWrite(wrote) => Take(cfg, Take(cfg, begun, Write(wrote)).value, Reboot(true)).value
    case CutBeforeWrite => Take(cfg, begun, Reboot(true)).value
  }

  // nothing of the addition survives, or all of it
  predicate AllOrNothing(o: Outcome) {
    match o
    case Finished(wrote, saved) => wrote && saved
    case CutAfterWrite(wrote) => !wrote
    case CutBeforeWrite => true
  }

  /** From a clean state, an addition leaves a clean state exactly when both its
      row and its head became durable, or a restart forgot an unwritten one. */
  lemma AttemptCleanIff(cfg: Config, s: Sys, id: string, c: Committed, status: Status, o: Outcome)
    requires s.phase.Idle? && Clean(cfg.H, s) && |c.binding| == HEX_WIDTH
    ensures Clean(cfg.H, AfterAttempt(cfg, s, id, c, status, o)) <==> AllOrNothing(o)
  {
    var r := NewRecord(cfg, State([], s.seq_, s.head, NO_COUNTS, 0), id, c, status);
    AttemptEffect(cfg, s, id, c, status, o);
    if RowWritten(o) { AppendRow(cfg.H, s.rows, r); }
  }

  // the rows and the position after one attempt
  lemma AttemptEffect(cfg: Config, s: Sys, id: string, c: Committed, status: Status, o: Outcome)
    requires s.phase.Idle? && (s.seq_, s.head) == SavedHead(s)
    ensures var after := AfterAttempt(cfg, s, id, c, status, o);
            var r := NewRecord(cfg, State([], s.seq_, s.head, NO_COUNTS, 0), id, c, status);
            && after.phase.Idle? && r.seq_ == s.seq_ + 1 && r.prev == s.head
            && after.rows == (if RowWritten(o) then s.rows + [r] else s.rows)
            && (after.seq_, after.head) == (if o.Finished? then (r.seq_, r.chain) else (s.seq_, s.head))
            && SavedHead(after) == (if o.Finished? && o.saved then (r.seq_, r.chain) else SavedHead(s))
  {
  }

  /** A restart between write and save forks the ledger: the next addition
      writes a second row with the same number and the same predecessor. */
  lemma CutAfterWriteForks(cfg: Config, s: Sys, id: string, c: Committed, status: Status, id': string,
                           c': Committed, status': Status)
    requires s.phase.Idle? && Clean(cfg.H, s)
    ensures var cut := AfterAttempt(cfg, s, id, c, status, CutAfterWrite(true));
            var next := AfterAttempt(cfg, cut, id', c', status', Finished(true, true));
            && |next.rows| == |s.rows| + 2
            && next.rows[|s.rows|].seq_ == next.rows[|s.rows| + 1].seq_
            && next.rows[|s.rows|].prev == next.rows[|s.rows| + 1].prev
            && !OneChain(cfg.H, next.rows)
  {
    var cut := AfterAttempt(cfg, s, id, c, status, CutAfterWrite(true));
    var next := AfterAttempt(cfg, cut, id', c', status', Finished(true, true));
    AttemptEffect(cfg, s, id, c, status, CutAfterWrite(true));
    AttemptEffect(cfg, cut, id', c', status', Finished(true, true));
    assert next.rows[|s.rows| + 1].seq_ != |s.rows| + 2;
  }

  /** A failed write whose head is saved leaves a number that no row carries:
      after the next addition the rows skip it. */
  lemma LostWriteLeavesGap(cfg: Config, s: Sys, id: string, c: Committed, status: Status, id': string,
                           c': Committed, status': Status)
    requires s.phase.Idle? && Clean(cfg.H, s)
    ensures var lost := AfterAttempt(cfg, s, id, c, status, Finished(false, true));
            var next := AfterAttempt(cfg, lost, id', c', status', Finished(true, true));
            && next.rows == s.rows + [next.rows[|s.rows|]]
            && next.rows[|s.rows|].seq_ == |s.rows| + 2
            && !OneChain(cfg.H, next.rows)
  {
    var lost := AfterAttempt(cfg, s, id, c, status, Finished(false, true));
    var next := AfterAttempt(cfg, lost, id', c', status', Finished(true, true));
    AttemptEffect(cfg, s, id, c, status, Finished(false, true));
    AttemptEffect(cfg, lost, id', c', status', Finished(true, true));
    assert next.rows[|s.rows|].seq_ != |s.rows| + 1;
  }

  /** A reboot that cannot load the saved head restarts at genesis; it keeps the
      head in step exactly when nothing but genesis had been saved. */
  lemma FailedLoadRestarts(cfg: Config, s: Sys)
    ensures HeadInStep(Take(cfg, s, Reboot(false)).value) <==> SavedHead(s) == (0, GENESIS)
  {
  }
}
