/** What the hot ring holds, and what the chain walk over it reports, after any
    run of a commitment store. */
module RingRuns {
  import opened Wrappers
  import opened Records
  import opened ChainWalk
  import opened HonestRuns
  import opened Sorting
  import opened Store

  function SeqKey(r: Record): int {
    r.seq_
  }

  // binding hashes are digests
  ghost predicate DigestBindings(ops: seq<Op>) {
    forall i :: 0 <= i < |ops| && ops[i].Add? ==> |ops[i].c.binding| == HEX_WIDTH
  }

  // the log is one honest run behind the starting head, and the counters describe it
  ghost predicate Describes(H: Hash, start: State, st: State, log: seq<Record>) {
    && HonestRun(H, ExportAll(log), start.head)
    && st.head == HeadAt(ExportAll(log), start.head, |log|)
    && st.seq_ == start.seq_ + |log| && st.total == start.total + |log|
    && forall i :: 0 <= i < |log| ==> log[i].seq_ == start.seq_ + 1 + i
  }

  lemma AddDescribes(cfg: Config, start: State, st: State, log: seq<Record>, id: string, c: Committed, status: Status)
    requires Describes(cfg.H, start, st, log) && |c.binding| == HEX_WIDTH
    ensures Describes(cfg.H, start, AddStep(cfg, st, id, c, status), log + [NewRecord(cfg, st, id, c, status)])
  {
    var r := NewRecord(cfg, st, id, c, status);
    if log != [] { assert ExportAll(log)[|log| - 1].Seq() == st.seq_; }
    ExtendHonest(cfg.H, ExportAll(log), start.head, Export(r));
    ExportSnoc(log, r);
  }

  /** The created records are one honest run behind the starting head, and the
      store's counters describe it. */
  lemma {:induction false} LogIsHonest(cfg: Config, persisted: Option<(nat, string)>, ops: seq<Op>)
    requires HexDigests(cfg.H) && |Resumed(persisted).head| == HEX_WIDTH && DigestBindings(ops)
    ensures Describes(cfg.H, Resumed(persisted), Run(cfg, Resumed(persisted), ops), Log(cfg, Resumed(persisted), ops))
  {
    if ops != [] {
      var front, op := ops[..|ops| - 1], ops[|ops| - 1];
      LogIsHonest(cfg, persisted, front);
      if op.Add? {
        var start := Resumed(persisted);
        AddDescribes(cfg, start, Run(cfg, start, front), Log(cfg, start, front), op.id, op.c, op.status);
      }
    }
  }

  lemma ExportSnoc(log: seq<Record>, r: Record)
    ensures ExportAll(log + [r]) == ExportAll(log) + [Export(r)]
  {
  }

  lemma ExtendHonest(H: Hash, es: seq<Envelope>, head0: string, e: Envelope)
    requires HonestRun(H, es, head0) && Recomputes(H, e) && e.prevHash == Some(HeadAt(es, head0, |es|))
    requires e.seqNo.Some? && |e.Binding()| == HEX_WIDTH
    requires es != [] ==> e.Seq() == es[|es| - 1].Seq() + 1
    ensures HonestRun(H, es + [e], head0)
  {
    forall i | 0 <= i < |es + [e]|
      ensures HonestAt(H, es + [e], head0, i)
    {
      if i < |es| { assert HonestAt(H, es, head0, i); }
    }
    forall i | 0 < i < |es + [e]|
      ensures NoGapAt(es + [e], i)
    {
      if i < |es| { assert NoGapAt(es, i); }
    }
  }

  // ---- every hot record comes from the log ----

  // r is the log record of its number, up to its status
  ghost predicate FromLog(log: seq<Record>, base: nat, r: Record) {
    base < r.seq_ <= base + |log| && Export(r) == Export(log[r.seq_ - base - 1])
  }

  ghost predicate HotFromLog(hot: seq<Record>, log: seq<Record>, base: nat) {
    DistinctKeys(hot, SeqKey) && forall i :: 0 <= i < |hot| ==> FromLog(log, base, hot[i])
  }

  lemma {:induction false} HotComesFromLog(cfg: Config, persisted: Option<(nat, string)>, ops: seq<Op>)
    requires HexDigests(cfg.H) && |Resumed(persisted).head| == HEX_WIDTH && DigestBindings(ops)
    ensures HotFromLog(Run(cfg, Resumed(persisted), ops).hot, Log(cfg, Resumed(persisted), ops),
                       Resumed(persisted).seq_)
  {
    if ops != [] {
      var front, op := ops[..|ops| - 1], ops[|ops| - 1];
      var st, log := Run(cfg, Resumed(persisted), front), Log(cfg, Resumed(persisted), front);
      var base := Resumed(persisted).seq_;
      HotComesFromLog(cfg, persisted, front);
      LogIsHonest(cfg, persisted, front);
      match op
      case Add(id, c, status) =>
        var r := NewRecord(cfg, st, id, c, status);
        PutFromLog(st.hot, log, base, r);
        LastNFromLog(Put(st.hot, r), log + [r], base, cfg.ringSize);
      case Mark(id, status) =>
        MarkFromLog(st, log, base, id, status);
    }
  }

  lemma PutFromLog(hot: seq<Record>, log: seq<Record>, base: nat, r: Record)
    requires HotFromLog(hot, log, base) && r.seq_ == base + |log| + 1
    ensures HotFromLog(Put(hot, r), log + [r], base)
  {
    var put := Put(hot, r);
    forall i | 0 <= i < |put|
      ensures FromLog(log + [r], base, put[i])
      ensures put[i] == r || (i < |hot| && put[i] == hot[i])
    {
      if i < |hot| { assert FromLog(log, base, hot[i]); }
    }
    forall i, j | 0 <= i < j < |put|
      ensures SeqKey(put[i]) != SeqKey(put[j])
    {
      if i < |hot| { assert FromLog(log, base, hot[i]); }
      if j < |hot| { assert FromLog(log, base, hot[j]); }
    }
  }

  lemma MarkFromLog(st: State, log: seq<Record>, base: nat, id: string, status: Status)
    requires HotFromLog(st.hot, log, base)
    ensures HotFromLog(SetStatusStep(st, id, status).hot, log, base)
  {
    var hot := SetStatusStep(st, id, status).hot;
    forall i | 0 <= i < |hot|
      ensures FromLog(log, base, hot[i]) && SeqKey(hot[i]) == SeqKey(st.hot[i])
    {
      assert FromLog(log, base, st.hot[i]);
      assert Export(hot[i]) == Export(st.hot[i]);
    }
  }

  lemma LastNIndex(hot: seq<Record>, n: nat, i: nat)
    requires i < |LastN(hot, n)|
    ensures LastN(hot, n)[i] == hot[|hot| - |LastN(hot, n)| + i]
  {
  }

  lemma LastNFromLog(hot: seq<Record>, log: seq<Record>, base: nat, n: nat)
    requires HotFromLog(hot, log, base)
    ensures HotFromLog(LastN(hot, n), log, base)
  {
    var kept := LastN(hot, n);
    forall i | 0 <= i < |kept|
      ensures FromLog(log, base, kept[i])
    {
      LastNIndex(hot, n, i);
    }
    forall i, j | 0 <= i < j < |kept|
      ensures SeqKey(kept[i]) != SeqKey(kept[j])
    {
      LastNIndex(hot, n, i);
      LastNIndex(hot, n, j);
    }
  }

  // ---- the window that the walk sees ----

  ghost predicate Ascends(rs: seq<Record>) {
    forall i, j :: 0 <= i < j < |rs| ==> rs[i].seq_ < rs[j].seq_
  }

  // the ring in ascending order of number
  function InOrder(hot: seq<Record>): (r: seq<Record>)
    ensures |r| == |hot|
  {
    SortBy(hot, SeqKey)
  }

  lemma InOrderAscends(hot: seq<Record>)
    requires DistinctKeys(hot, SeqKey)
    ensures Ascends(InOrder(hot)) && multiset(InOrder(hot)) == multiset(hot)
  {
    SortSorts(hot, SeqKey);
    SortDistinct(hot, SeqKey);
    var asc := InOrder(hot);
    forall i, j | 0 <= i < j < |asc|
      ensures asc[i].seq_ < asc[j].seq_
    {
      assert SeqKey(asc[i]) <= SeqKey(asc[j]) && SeqKey(asc[i]) != SeqKey(asc[j]);
    }
  }

  lemma SuffixAscends(rs: seq<Record>, n: nat)
    requires Ascends(rs)
    ensures Ascends(LastN(rs, n))
  {
    var kept := LastN(rs, n);
    forall i, j | 0 <= i < j < |kept|
      ensures kept[i].seq_ < kept[j].seq_
    {
      LastNIndex(rs, n, i);
      LastNIndex(rs, n, j);
    }
  }

  lemma NewestIsReversed(hot: seq<Record>)
    requires DistinctKeys(hot, SeqKey)
    ensures NewestFirst(hot) == Rev(InOrder(hot))
  {
    var asc := InOrder(hot);
    InOrderAscends(hot);
    RevMultiset(asc);
    RevDescends(asc);
    SortOf(hot, Rev(asc), (r: Record) => -(r.seq_ as int));
  }

  lemma RevDescends(asc: seq<Record>)
    requires Ascends(asc)
    ensures SortedBy(Rev(asc), (r: Record) => -(r.seq_ as int))
    ensures DistinctKeys(Rev(asc), (r: Record) => -(r.seq_ as int))
  {
    var desc := Rev(asc);
    forall i, j | 0 <= i < j < |desc|
      ensures desc[j].seq_ < desc[i].seq_
    {
      assert asc[|asc| - 1 - j].seq_ < asc[|asc| - 1 - i].seq_;
    }
  }

  // exported records sort back into their order
  lemma ExportsSort(rs: seq<Record>)
    requires Ascends(rs)
    ensures BySeq(Rev(ExportAll(rs))) == ExportAll(rs)
  {
    var es := ExportAll(rs);
    forall i, j | 0 <= i < j < |es|
      ensures es[i].Seq() < es[j].Seq()
    {
      assert rs[i].seq_ < rs[j].seq_;
    }
    RevMultiset(es);
    SortOf(Rev(es), es, (e: Envelope) => e.Seq());
  }

  // the newest records of the ring that a walk with this limit looks at, oldest first
  function Walked(hot: seq<Record>, limit: int): (r: seq<Record>) {
    LastN(InOrder(hot), CutLength(|hot|, limit))
  }

  /** Exporting newest-first, cutting at limit and sorting again by number is
      the newest records in ascending order. */
  lemma WindowIsSuffix(hot: seq<Record>, limit: int)
    requires DistinctKeys(hot, SeqKey)
    ensures BySeq(AuditWindow(hot, limit)) == ExportAll(Walked(hot, limit))
  {
    var n := CutLength(|hot|, limit);
    InOrderAscends(hot);
    SuffixAscends(InOrder(hot), n);
    NewestIsReversed(hot);
    CutReversed(InOrder(hot), n);
    ExportsSort(Walked(hot, limit));
  }

  lemma CutReversed(asc: seq<Record>, n: nat)
    requires n <= |asc|
    ensures ExportAll(Rev(asc)[..n]) == Rev(ExportAll(LastN(asc, n)))
  {
    var cut, kept := Rev(asc)[..n], LastN(asc, n);
    forall i | 0 <= i < |cut|
      ensures ExportAll(cut)[i] == Rev(ExportAll(kept))[i]
    {
      LastNIndex(asc, n, |kept| - 1 - i);
    }
  }

  // numbers without a gap
  ghost predicate ConsecutiveAt(rs: seq<Record>, i: nat)
    requires 0 < i < |rs|
  {
    rs[i].seq_ == rs[i - 1].seq_ + 1
  }

  ghost predicate Consecutive(rs: seq<Record>) {
    forall i :: 0 < i < |rs| ==> ConsecutiveAt(rs, i)
  }

  lemma PickedWindow(cfg: Config, log: seq<Record>, head0: string, base: nat, rs: seq<Record>)
    requires HonestRun(cfg.H, ExportAll(log), head0)
    requires forall i :: 0 <= i < |rs| ==> FromLog(log, base, rs[i])
    requires Ascends(rs)
    ensures IntactChain(cfg.H, ExportAll(rs)) <==> Consecutive(rs)
  {
    var picks: seq<nat> := seq(|rs|, i requires 0 <= i < |rs| => rs[i].seq_ - base - 1);
    assert Pick(ExportAll(log), picks) == ExportAll(rs);
    WindowIntactIffContiguous(cfg.H, ExportAll(log), head0, picks);
    forall i | 0 < i < |rs|
      ensures NextAt(picks, i) <==> ConsecutiveAt(rs, i)
    {
    }
    if Contiguous(picks) {
      forall i | 0 < i < |rs| ensures ConsecutiveAt(rs, i) { assert NextAt(picks, i); }
    }
    if Consecutive(rs) {
      forall i | 0 < i < |rs| ensures NextAt(picks, i) { assert ConsecutiveAt(rs, i); }
    }
  }

  /** After any run - repeated ids included - the chain walk over the ring is
      clean exactly when the records it looks at have no missing number. */
  lemma WalkExact(cfg: Config, persisted: Option<(nat, string)>, ops: seq<Op>, limit: int)
    requires HexDigests(cfg.H) && |Resumed(persisted).head| == HEX_WIDTH && DigestBindings(ops)
    ensures var hot := Run(cfg, Resumed(persisted), ops).hot;
            IntactChain(cfg.H, BySeq(AuditWindow(hot, limit)))
            <==> Consecutive(Walked(hot, limit))
  {
    var hot, log := Run(cfg, Resumed(persisted), ops).hot, Log(cfg, Resumed(persisted), ops);
    LogIsHonest(cfg, persisted, ops);
    HotComesFromLog(cfg, persisted, ops);
    WindowIsSuffix(hot, limit);
    InOrderAscends(hot);
    SuffixAscends(InOrder(hot), CutLength(|hot|, limit));
    InOrderFromLog(hot, log, Resumed(persisted).seq_, limit);
    PickedWindow(cfg, log, Resumed(persisted).head, Resumed(persisted).seq_, Walked(hot, limit));
  }

  lemma InOrderFromLog(hot: seq<Record>, log: seq<Record>, base: nat, limit: int)
    requires HotFromLog(hot, log, base)
    ensures forall i :: 0 <= i < |Walked(hot, limit)| ==> FromLog(log, base, Walked(hot, limit)[i])
  {
    var asc := InOrder(hot);
    var rs := Walked(hot, limit);
    SortSorts(hot, SeqKey);
    forall i | 0 <= i < |rs|
      ensures FromLog(log, base, rs[i])
    {
      LastNIndex(asc, CutLength(|hot|, limit), i);
      var k := IndexIn(asc, hot, |asc| - |rs| + i);
      assert FromLog(log, base, hot[k]);
    }
  }

  // ---- fresh ids ----

  ghost predicate FreshIds(log: seq<Record>) {
    forall i, j :: 0 <= i < j < |log| ==> log[i].txn != log[j].txn
  }

  // the ring is the last part of the log, in order, up to statuses
  ghost predicate HotIsTail(hot: seq<Record>, log: seq<Record>, ringSize: nat) {
    && |hot| == (if |log| <= ringSize then |log| else ringSize)
    && forall i :: 0 <= i < |hot| ==> Export(hot[i]) == Export(log[|log| - |hot| + i])
  }

  lemma FreshFront(log: seq<Record>, r: Record)
    requires FreshIds(log + [r])
    ensures FreshIds(log) && forall i :: 0 <= i < |log| ==> log[i].txn != r.txn
  {
    var all := log + [r];
    assert forall i :: 0 <= i < |log| ==> all[i] == log[i];
    assert all[|log|] == r;
  }

  /** With fresh ids, any mix of additions and status changes leaves exactly the
      last min(total, ringSize) records in the ring, in sequence order. */
  lemma {:induction false} RingHoldsTail(cfg: Config, persisted: Option<(nat, string)>, ops: seq<Op>)
    requires FreshIds(Log(cfg, Resumed(persisted), ops))
    ensures HotIsTail(Run(cfg, Resumed(persisted), ops).hot, Log(cfg, Resumed(persisted), ops), cfg.ringSize)
  {
    if ops != [] {
      var front, op := ops[..|ops| - 1], ops[|ops| - 1];
      var st, log := Run(cfg, Resumed(persisted), front), Log(cfg, Resumed(persisted), front);
      match op
      case Add(id, c, status) =>
        var r := NewRecord(cfg, st, id, c, status);
        FreshFront(log, r);
        RingHoldsTail(cfg, persisted, front);
        PutTail(st.hot, log, cfg.ringSize, r);
      case Mark(id, status) =>
        RingHoldsTail(cfg, persisted, front);
        MarkTail(st, log, cfg.ringSize, id, status);
    }
  }

  lemma PutTail(hot: seq<Record>, log: seq<Record>, ringSize: nat, r: Record)
    requires HotIsTail(hot, log, ringSize) && forall i :: 0 <= i < |log| ==> log[i].txn != r.txn
    ensures HotIsTail(LastN(Put(hot, r), ringSize), log + [r], ringSize)
  {
    forall i | 0 <= i < |hot|
      ensures hot[i].txn != r.txn
    {
      assert Export(hot[i]).txnId == Export(log[|log| - |hot| + i]).txnId;
    }
    var put := Put(hot, r);
    assert put == hot + [r];
    var kept := LastN(put, ringSize);
    forall i | 0 <= i < |kept|
      ensures Export(kept[i]) == Export((log + [r])[|log| + 1 - |kept| + i])
    {
      LastNIndex(put, ringSize, i);
      var k := |put| - |kept| + i;
      if k < |hot| { assert Export(hot[k]) == Export(log[|log| - |hot| + k]); }
    }
  }

  lemma MarkTail(st: State, log: seq<Record>, ringSize: nat, id: string, status: Status)
    requires HotIsTail(st.hot, log, ringSize)
    ensures HotIsTail(SetStatusStep(st, id, status).hot, log, ringSize)
  {
    var hot := SetStatusStep(st, id, status).hot;
    forall i | 0 <= i < |hot|
      ensures Export(hot[i]) == Export(log[|log| - |hot| + i])
    {
      assert Export(hot[i]) == Export(st.hot[i]);
    }
  }

  // the tail of a log has consecutive, hence sorted, numbers
  lemma TailSorted(hot: seq<Record>, log: seq<Record>, base: nat, ringSize: nat)
    requires HotIsTail(hot, log, ringSize)
    requires forall i :: 0 <= i < |log| ==> log[i].seq_ == base + 1 + i
    ensures forall i :: 0 <= i < |hot| ==> hot[i].seq_ == base + 1 + (|log| - |hot| + i)
    ensures InOrder(hot) == hot
  {
    forall i | 0 <= i < |hot|
      ensures hot[i].seq_ == base + 1 + (|log| - |hot| + i)
    {
      assert Export(hot[i]).seqNo == Export(log[|log| - |hot| + i]).seqNo;
    }
    SortIdentity(hot, SeqKey);
  }

  /** With fresh ids the store's own chain check reports intact for every limit. */
  lemma FreshRunsVerify(cfg: Config, persisted: Option<(nat, string)>, ops: seq<Op>, limit: int)
    requires HexDigests(cfg.H) && |Resumed(persisted).head| == HEX_WIDTH && DigestBindings(ops)
    requires FreshIds(Log(cfg, Resumed(persisted), ops))
    ensures IntactChain(cfg.H, BySeq(AuditWindow(Run(cfg, Resumed(persisted), ops).hot, limit)))
  {
    var hot, log := Run(cfg, Resumed(persisted), ops).hot, Log(cfg, Resumed(persisted), ops);
    RingHoldsTail(cfg, persisted, ops);
    LogIsHonest(cfg, persisted, ops);
    TailSorted(hot, log, Resumed(persisted).seq_, cfg.ringSize);
    var rs := Walked(hot, limit);
    forall i | 0 < i < |rs|
      ensures ConsecutiveAt(rs, i)
    {
      LastNIndex(hot, CutLength(|hot|, limit), i);
      LastNIndex(hot, CutLength(|hot|, limit), i - 1);
    }
    WalkExact(cfg, persisted, ops, limit);
  }

  /** From any ring that walks clean, adding an id it already holds moves that
      record's number to the end: a walk stays clean exactly when its limit ends
      before the gap - over the whole ring, exactly when the repeated record was
      the oldest one. */
  lemma RedeliveryBreaksWalk(cfg: Config, persisted: Option<(nat, string)>, ops: seq<Op>, id: string, c: Committed,
                             status: Status, limit: int)
    requires HexDigests(cfg.H) && |Resumed(persisted).head| == HEX_WIDTH && DigestBindings(ops)
    requires |c.binding| == HEX_WIDTH && Consecutive(InOrder(Run(cfg, Resumed(persisted), ops).hot))
    ensures var st := Run(cfg, Resumed(persisted), ops);
            var after := Run(cfg, Resumed(persisted), ops + [Op.Add(id, c, status)]).hot;
            var at := IndexOf(st.hot, id);
            at.Some? ==>
              (IntactChain(cfg.H, BySeq(AuditWindow(after, limit)))
               <==> CutLength(|st.hot|, limit) <= st.seq_ + 1 - st.hot[at.value].seq_)
  {
    var st := Run(cfg, Resumed(persisted), ops);
    var more := ops + [Op.Add(id, c, status)];
    if IndexOf(st.hot, id).Some? {
      RunSnoc(cfg, Resumed(persisted), ops, Op.Add(id, c, status));
      WalkExact(cfg, persisted, more, limit);
      RingIdsDistinct(cfg, persisted, ops);
      HotComesFromLog(cfg, persisted, ops);
      NewestStays(cfg, persisted, ops);
      RedeliveredRing(cfg, st, id, c, status, CutLength(|st.hot|, limit));
    }
  }

  // one step: the walked part of the ring after the repetition
  lemma RedeliveredRing(cfg: Config, st: State, id: string, c: Committed, status: Status, n: nat)
    requires DistinctKeys(st.hot, SeqKey) && Consecutive(InOrder(st.hot)) && HasNumber(st.hot, st.seq_)
    requires |st.hot| <= cfg.ringSize && n <= |st.hot| && IndexOf(st.hot, id).Some?
    requires forall i :: 0 <= i < |st.hot| ==> st.hot[i].seq_ <= st.seq_
    ensures var after := AddStep(cfg, st, id, c, status).hot;
            && |after| == |st.hot|
            && (Consecutive(LastN(InOrder(after), n)) <==> n <= st.seq_ + 1 - st.hot[IndexOf(st.hot, id).value].seq_)
  {
    ReplacedRing(cfg, st, id, c, status);
    NumbersUpTo(st.hot, st.seq_);
    MovedOrder(st.hot, IndexOf(st.hot, id).value, NewRecord(cfg, st, id, c, status), st.seq_, n);
  }

  // a consecutive ring that holds the newest record is numbered up to it
  lemma NumbersUpTo(hot: seq<Record>, top: nat)
    requires DistinctKeys(hot, SeqKey) && Consecutive(InOrder(hot)) && HasNumber(hot, top)
    requires forall i :: 0 <= i < |hot| ==> hot[i].seq_ <= top
    ensures forall i :: 0 <= i < |hot| ==> InOrder(hot)[i].seq_ == top + 1 - |hot| + i
  {
    var asc, h := InOrder(hot), |hot|;
    InOrderAscends(hot);
    var k :| 0 <= k < h && hot[k].seq_ == top;
    var j := IndexIn(hot, asc, k);
    var m := IndexIn(asc, hot, h - 1);
    LastIsLargest(asc, j);
    forall i | 0 <= i < h
      ensures asc[i].seq_ == top + 1 - h + i
    {
      CountDown(asc, i);
    }
  }

  lemma LastIsLargest(asc: seq<Record>, j: nat)
    requires Ascends(asc) && j < |asc|
    ensures asc[j].seq_ <= asc[|asc| - 1].seq_
  {
  }

  lemma {:induction false} CountDown(asc: seq<Record>, i: nat)
    requires Consecutive(asc) && i < |asc|
    ensures asc[i].seq_ == asc[|asc| - 1].seq_ - (|asc| - 1 - i)
    decreases |asc| - i
  {
    if i < |asc| - 1 {
      CountDown(asc, i + 1);
      assert ConsecutiveAt(asc, i + 1);
    }
  }

  ghost predicate HasNumber(hot: seq<Record>, n: nat) {
    exists k :: 0 <= k < |hot| && hot[k].seq_ == n
  }

  // a non-empty ring holds the newest record, and no larger number
  lemma {:induction false} NewestStays(cfg: Config, persisted: Option<(nat, string)>, ops: seq<Op>)
    ensures var st := Run(cfg, Resumed(persisted), ops);
            && (st.hot != [] ==> HasNumber(st.hot, st.seq_))
            && forall i :: 0 <= i < |st.hot| ==> st.hot[i].seq_ <= st.seq_
  {
    if ops != [] {
      var front := ops[..|ops| - 1];
      var st := Run(cfg, Resumed(persisted), front);
      NewestStays(cfg, persisted, front);
      RingIdsDistinct(cfg, persisted, front);
      match ops[|ops| - 1]
      case Add(id, c, status) => AddKeepsNewest(cfg, st, id, c, status);
      case Mark(id, status) =>
        assert forall i :: 0 <= i < |st.hot| ==> SetStatusStep(st, id, status).hot[i].seq_ == st.hot[i].seq_;
    }
  }

  lemma AddKeepsNewest(cfg: Config, st: State, id: string, c: Committed, status: Status)
    requires |st.hot| <= cfg.ringSize && forall i :: 0 <= i < |st.hot| ==> st.hot[i].seq_ <= st.seq_
    ensures var after := AddStep(cfg, st, id, c, status);
            && (after.hot != [] ==> HasNumber(after.hot, after.seq_))
            && forall i :: 0 <= i < |after.hot| ==> after.hot[i].seq_ <= after.seq_
  {
    var r := NewRecord(cfg, st, id, c, status);
    var put := Put(st.hot, r);
    var kept := LastN(put, cfg.ringSize);
    var at := IndexOf(st.hot, id);
    if kept != [] {
      assert kept[if at.Some? then at.value else |kept| - 1] == r;
    }
    forall i | 0 <= i < |kept|
      ensures kept[i].seq_ <= st.seq_ + 1
    {
      LastNIndex(put, cfg.ringSize, i);
    }
  }

  lemma RunSnoc(cfg: Config, st: State, ops: seq<Op>, op: Op)
    ensures Run(cfg, st, ops + [op]) == Apply(cfg, Run(cfg, st, ops), op)
  {
    assert (ops + [op])[..|ops|] == ops;
  }

  // adding an id of the ring replaces its record in place
  lemma ReplacedRing(cfg: Config, st: State, id: string, c: Committed, status: Status)
    requires IndexOf(st.hot, id).Some? && |st.hot| <= cfg.ringSize
    ensures AddStep(cfg, st, id, c, status).hot
         == st.hot[IndexOf(st.hot, id).value := NewRecord(cfg, st, id, c, status)]
  {
  }

  // a ring numbered up to top, with the record at p renumbered to the end
  lemma MovedOrder(hot: seq<Record>, p: nat, r: Record, top: nat, n: nat)
    requires p < |hot| && DistinctKeys(hot, SeqKey) && r.seq_ == top + 1 && n <= |hot|
    requires forall i :: 0 <= i < |hot| ==> InOrder(hot)[i].seq_ == top + 1 - |hot| + i
    ensures Consecutive(LastN(InOrder(hot[p := r]), n)) <==> n <= top + 1 - hot[p].seq_
  {
    var asc := InOrder(hot);
    InOrderAscends(hot);
    var a := IndexIn(hot, asc, p);
    var sorted := asc[..a] + asc[a + 1..] + [r];
    forall i | 0 <= i < |sorted|
      ensures sorted[i].seq_ == top + 1 - |hot| + i + if i < a then 0 else 1
    {
      if a <= i < |hot| - 1 { assert sorted[i] == asc[i + 1]; }
    }
    MoveToEnd(hot, asc, p, a, r);
    SortOf(hot[p := r], sorted, SeqKey);
    GapAt(sorted, a, n, top + 1 - |hot|);
  }

  // numbers with one gap, before position a: the last n have none if they start there
  lemma GapAt(rs: seq<Record>, a: nat, n: nat, first: int)
    requires a < |rs| && n <= |rs|
    requires forall i :: 0 <= i < |rs| ==> rs[i].seq_ == first + i + if i < a then 0 else 1
    ensures Consecutive(LastN(rs, n)) <==> n <= |rs| - a || a == 0
  {
    var kept := LastN(rs, n);
    var skip := |rs| - n;
    forall i | 0 < i < n
      ensures ConsecutiveAt(kept, i) <==> skip + i != a
    {
      LastNIndex(rs, n, i);
      LastNIndex(rs, n, i - 1);
    }
    if n > |rs| - a && a > 0 { assert !ConsecutiveAt(kept, a - skip); }
  }

  lemma MoveToEnd(hot: seq<Record>, asc: seq<Record>, p: nat, a: nat, r: Record)
    requires p < |hot| && a < |asc| && asc[a] == hot[p] && multiset(asc) == multiset(hot)
    ensures multiset(hot[p := r]) == multiset(asc[..a] + asc[a + 1..] + [r])
  {
    WithoutAt(asc, a);
    assert multiset(hot[p := r]) == multiset(hot) - multiset{hot[p]} + multiset{r};
  }
}
